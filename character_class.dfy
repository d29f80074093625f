/** character-class.ts: a character class of the unknown-word definitions. Every field is
    readonly, so the fields are constants and the getters read them. */
module CharacterClasses {
  class CharacterClass {
    const classId: int
    const className: string
    const isAlwaysInvoke: bool
    const isGrouping: bool
    const maxLength: int

    constructor (classId: int, className: string, isAlwaysInvoke: bool, isGrouping: bool, maxLength: int)
      ensures this.classId == classId && this.className == className
      ensures this.isAlwaysInvoke == isAlwaysInvoke && this.isGrouping == isGrouping
      ensures this.maxLength == maxLength
    {
      this.classId := classId;
      this.className := className;
      this.isAlwaysInvoke := isAlwaysInvoke;
      this.isGrouping := isGrouping;
      this.maxLength := maxLength;
    }
  }
}

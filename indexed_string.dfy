/** SurrogateAwareString.ts: the index-mapping variant of the surrogate-aware string. The
    constructor records the UTF-16 offset at which every logical character starts; the
    lookups slice the raw string at those offsets. */
module IndexedStrings {
  import opened Wrappers
  import opened Surrogates
  import opened SpreadStrings

  /** The offset of the character after the one starting at p: one extra unit is skipped
      after a high surrogate, whatever follows it. */
  function Next(s: seq<CodeUnit>, p: nat): nat {
    if p < |s| && IsHighSurrogate(s[p]) then p + 2 else p + 1
  }

  /** The offsets the constructor loop pushes from position pos on. */
  function MappingFrom(s: seq<CodeUnit>, pos: nat): seq<nat>
    decreases |s| - pos
  {
    if pos >= |s| then [] else [pos] + MappingFrom(s, Next(s, pos))
  }

  /** The offsets of a mapping of s: strictly increasing and inside the string. */
  ghost predicate OffsetsOf(s: seq<CodeUnit>, m: seq<nat>) {
    && (forall k :: 0 <= k < |m| ==> m[k] < |s|)
    && (forall i, j :: 0 <= i < j < |m| ==> m[i] < m[j])
  }

  /** The mapping from pos on starts at pos, is strictly increasing, stays inside the string,
      has at most one entry per remaining unit, and its last character reaches the end. */
  lemma {:induction false} MappingShape(s: seq<CodeUnit>, pos: nat)
    ensures var m := MappingFrom(s, pos);
      && (|m| == 0 <==> pos >= |s|)
      && (pos <= |s| ==> |m| <= |s| - pos)
      && (forall k :: 0 <= k < |m| ==> pos <= m[k])
      && OffsetsOf(s, m)
      && (|m| > 0 ==> m[0] == pos && Next(s, m[|m| - 1]) >= |s|)
    decreases |s| - pos
  {
    if pos < |s| {
      var n := Next(s, pos);
      MappingShape(s, n);
      var m, rest := MappingFrom(s, pos), MappingFrom(s, n);
      assert m == [pos] + rest;
      forall i, j | 0 <= i < j < |m| ensures m[i] < m[j] {
        assert m[j] == rest[j - 1];
        if i > 0 {
          assert m[i] == rest[i - 1];
        }
      }
      assert |m| > 1 ==> m[|m| - 1] == rest[|rest| - 1];
    }
  }

  /** Each offset is the previous one's successor: no character is skipped. */
  lemma {:induction false} MappingSteps(s: seq<CodeUnit>, pos: nat, k: nat)
    requires k + 1 < |MappingFrom(s, pos)|
    ensures MappingFrom(s, pos)[k + 1] == Next(s, MappingFrom(s, pos)[k])
    decreases k
  {
    if k > 0 {
      MappingSteps(s, Next(s, pos), k - 1);
    }
  }

  /** `#INDEX_MAPPING` of `new SurrogateAwareString(s)`. */
  function IndexMapping(s: seq<CodeUnit>): seq<nat> {
    MappingFrom(s, 0)
  }

  /** The constructor's loop. */
  method BuildIndexMapping(str: seq<CodeUnit>) returns (mapping: seq<nat>)
    ensures mapping == IndexMapping(str)
  {
    mapping := [];
    var pos := 0;
    while pos < |str|
      invariant 0 <= pos <= |str| + 1
      invariant mapping + MappingFrom(str, pos) == IndexMapping(str)
      decreases |str| + 1 - pos
    {
      var ch := str[pos..pos + 1];
      ghost var next := Next(str, pos);
      assert MappingFrom(str, pos) == [pos] + MappingFrom(str, next);
      assert mapping + MappingFrom(str, pos) == (mapping + [pos]) + MappingFrom(str, next);
      var high := IsSurrogatePair(Text(ch));
      assert high == IsHighSurrogate(str[pos]) by {
        assert ch[0] == str[pos];
        assert JudgedUnit(Text(ch)) == Some(str[pos]);
      }
      mapping := mapping + [pos];
      if high {
        pos := pos + 1;
      }
      pos := pos + 1;
      assert pos == next;
    }
  }

  datatype IndexError = StartIndexUndefined | IndexUndefined

  class IndexedString {
    const str: seq<CodeUnit>
    const indexMapping: seq<nat>
    const length: nat

    /** The mapping is the one the constructor builds, so its offsets increase strictly and
        stay inside the string. */
    ghost predicate Valid() {
      indexMapping == IndexMapping(str) && length == |indexMapping| && OffsetsOf(str, indexMapping)
    }

    constructor (str: seq<CodeUnit>)
      ensures Valid() && this.str == str
    {
      this.str := str;
      var mapping := BuildIndexMapping(str);
      MappingShape(str, 0);
      indexMapping := mapping;
      length := |mapping|;
    }

    /** `charAt(index)` as written: the guard compares with the raw UTF-16 length, so an
        index between the logical and the raw length reads a missing mapping entry. */
    function CharAt(index: int): (r: Result<seq<CodeUnit>, IndexError>)
      requires Valid()
      ensures r.Err? <==> index < 0 || length <= index < |str|
      ensures r == Ok([]) <==> index >= |str|
    {
      if |str| <= index then Ok([])
      else if index < 0 || index >= |indexMapping| then Err(StartIndexUndefined)
      else if index + 1 >= |indexMapping| then Ok(str[indexMapping[index]..])
      else Ok(str[indexMapping[index]..indexMapping[index + 1]])
    }

    /** `charAt(index)` guarded by the logical length, as `charCodeAt` and `slice` are. */
    function CharAtChecked(index: int): (r: Result<seq<CodeUnit>, IndexError>)
      requires Valid()
      ensures r.Err? <==> index < 0
      ensures r == Ok([]) <==> index >= length
    {
      if |indexMapping| <= index then Ok([])
      else if index < 0 then Err(StartIndexUndefined)
      else if index + 1 >= |indexMapping| then Ok(str[indexMapping[index]..])
      else Ok(str[indexMapping[index]..indexMapping[index + 1]])
    }

    /** `charCodeAt(index)`: `None` stands for `NaN`. A high surrogate whose next unit is
        missing compares `NaN` and is returned alone. */
    function CharCodeAt(index: int): (r: Result<Option<int>, IndexError>)
      requires Valid()
      ensures r == Ok(None) <==> index >= length
      ensures r.Err? <==> index < 0
    {
      if |indexMapping| <= index then Ok(None)
      else if index < 0 then Err(IndexUndefined)
      else
        var p := indexMapping[index];
        var upper: int := str[p];
        if IsHighSurrogate(upper) && p < |str| && p + 1 < |str| && IsLowSurrogate(str[p + 1]) then
          Ok(Some((upper - 0xD800) * 0x400 + str[p + 1] - 0xDC00 + 0x1_0000))
        else Ok(Some(upper))
    }

    /** `slice(index)`: the raw suffix from the index-th character on. */
    function Slice(index: int): (r: Result<seq<CodeUnit>, IndexError>)
      requires Valid()
      ensures r.Err? <==> index < 0
      ensures r == Ok([]) <==> index >= length
    {
      if |indexMapping| <= index then Ok([])
      else if index < 0 then Err(IndexUndefined)
      else Ok(str[indexMapping[index]..])
    }

    function ToString(): seq<CodeUnit> {
      str
    }
  }

  /** Every character is the one or two units from its offset to the next character's: two
      exactly when it starts with a high surrogate that is not the last unit. */
  lemma CharacterSpan(t: IndexedString, i: int)
    requires t.Valid() && 0 <= i < t.length
    ensures t.CharAt(i).Ok?
    ensures var c := t.CharAt(i).value; var p := t.indexMapping[i];
      && c == t.str[p..if Next(t.str, p) <= |t.str| then Next(t.str, p) else |t.str|]
      && (|c| == 2 <==> IsHighSurrogate(t.str[p]) && p + 1 < |t.str|)
      && (|c| == 1 <==> !(IsHighSurrogate(t.str[p]) && p + 1 < |t.str|))
  {
    var m := t.indexMapping;
    var s := t.str;
    var p := m[i];
    MappingShape(s, 0);
    if i + 1 < |m| {
      MappingSteps(s, 0, i);
      assert m[i + 1] == Next(s, p) && m[i + 1] < |s|;
      assert t.CharAt(i).value == s[p..Next(s, p)];
    } else {
      assert Next(s, p) >= |s|;
      assert t.CharAt(i).value == s[p..];
    }
  }

  /** Every character is the one or two units from its offset to the next character's;
      slice(i) is character i followed by slice(i + 1), and slice(0) is the whole string. */
  lemma SliceSplitsAtCharacters(t: IndexedString, i: int)
    requires t.Valid() && 0 <= i < t.length
    ensures t.CharAt(i).Ok? && t.Slice(i).Ok?
    ensures var c := t.CharAt(i).value; var p := t.indexMapping[i];
      && c == t.str[p..if Next(t.str, p) <= |t.str| then Next(t.str, p) else |t.str|]
      && (|c| == 2 <==> IsHighSurrogate(t.str[p]) && p + 1 < |t.str|)
      && (|c| == 1 <==> !(IsHighSurrogate(t.str[p]) && p + 1 < |t.str|))
    ensures t.Slice(i).value == t.CharAt(i).value + (if i + 1 < t.length then t.Slice(i + 1).value else [])
    ensures t.Slice(0) == Ok(t.str)
  {
    CharacterSpan(t, i);
    var m := t.indexMapping;
    var s := t.str;
    var p := m[i];
    MappingShape(s, 0);
    if i + 1 < |m| {
      MappingSteps(s, 0, i);
      assert s[p..] == s[p..m[i + 1]] + s[m[i + 1]..];
    }
    assert m[0] == 0 || |s| == 0;
  }

  /** charCodeAt reads the code point of the character charAt returns. */
  lemma CharCodeAtReadsCharacter(t: IndexedString, i: int)
    requires t.Valid() && 0 <= i < t.length
    ensures t.CharAt(i).Ok? && t.CharCodeAt(i) == Ok(ElementCodePoint(t.CharAt(i).value))
  {
    CharacterSpan(t, i);
    var s, p := t.str, t.indexMapping[i];
    var c := t.CharAt(i).value;
    if IsHighSurrogate(s[p]) && p + 1 < |s| {
      assert c == [s[p], s[p + 1]];
    } else {
      assert c == [s[p]];
    }
  }

  /** On such a string the spread array of a suffix starts with the character at its offset. */
  lemma SpreadStep(s: seq<CodeUnit>, pos: nat)
    requires HighsPaired(s) && pos < |s|
    ensures Next(s, pos) <= |s|
    ensures Spread(s[pos..]) == [s[pos..Next(s, pos)]] + Spread(s[Next(s, pos)..])
  {
    var n := Next(s, pos);
    assert n <= |s|;
    assert s[pos..][n - pos..] == s[n..];
    assert s[pos..][..n - pos] == s[pos..n];
  }

  lemma {:induction false} MappingFollowsSpread(s: seq<CodeUnit>, pos: nat)
    requires HighsPaired(s) && pos <= |s|
    ensures |MappingFrom(s, pos)| == |Spread(s[pos..])|
    ensures forall k :: 0 <= k < |MappingFrom(s, pos)| ==>
              Next(s, MappingFrom(s, pos)[k]) <= |s| && Spread(s[pos..])[k..] == Spread(s[MappingFrom(s, pos)[k]..])
    decreases |s| - pos
  {
    var m := MappingFrom(s, pos);
    if pos == |s| {
      assert s[pos..] == [];
    } else {
      var n := Next(s, pos);
      var sp := Spread(s[pos..]);
      SpreadStep(s, pos);
      MappingFollowsSpread(s, n);
      var rest := MappingFrom(s, n);
      assert m == [pos] + rest;
      forall k | 0 <= k < |m|
        ensures Next(s, m[k]) <= |s| && sp[k..] == Spread(s[m[k]..])
      {
        if k > 0 {
          assert m[k] == rest[k - 1];
          assert sp[k..] == Spread(s[n..])[k - 1..];
        }
      }
    }
  }

  /** The two string classes agree on well-formed text: the same length, and the same
      character at every logical index; past the logical length only the corrected charAt
      agrees (see CharAtThrowsBetweenLengths). */
  lemma CharAtAgreesWithSpreadString(t: IndexedString, i: int)
    requires t.Valid() && HighsPaired(t.str)
    ensures t.length == FromRaw(t.str).Length()
    ensures 0 <= i < t.length ==> t.CharAt(i) == Ok(FromRaw(t.str).CharAt(i))
    ensures 0 <= i ==> t.CharAtChecked(i) == Ok(FromRaw(t.str).CharAt(i))
  {
    var s := t.str;
    var m := t.indexMapping;
    MappingFollowsSpread(s, 0);
    assert s[0..] == s;
    if 0 <= i < t.length {
      var p := m[i];
      var n := Next(s, p);
      SliceSplitsAtCharacters(t, i);
      assert t.CharAt(i).value == s[p..n];
      assert Spread(s)[i..] == Spread(s[p..]);
      assert Spread(s)[i] == Spread(s[p..])[0];
      SpreadIsCodePointSplit(s[p..]);
      assert s[p..][..n - p] == s[p..n];
    }
  }

  /** ... and the same suffixes. */
  lemma SliceAgreesWithSpreadString(t: IndexedString, i: int)
    requires t.Valid() && HighsPaired(t.str)
    ensures 0 <= i ==> t.Slice(i) == Ok(FromRaw(t.str).Slice(i))
  {
    var s := t.str;
    var m := t.indexMapping;
    MappingFollowsSpread(s, 0);
    assert s[0..] == s;
    if 0 <= i < t.length {
      var p := m[i];
      assert Spread(s)[i..] == Spread(s[p..]);
      SpreadIsCodePointSplit(s[p..]);
      assert SliceStart(i, |Spread(s)|) == i;
    } else if t.length <= i {
      assert SliceStart(i, |Spread(s)|) == |Spread(s)|;
      assert Spread(s)[|Spread(s)|..] == [];
    }
  }

  // ---------------------------------------------------------------------------
  // charAt between the logical and the raw length.

  /** As written, charAt throws for every index from the logical length up to the raw
      length; "𠮷" (one character, two units) shows it at index 1. */
  lemma CharAtThrowsBetweenLengths(t: IndexedString, i: int)
    requires t.Valid() && t.length <= i < |t.str|
    ensures t.CharAt(i) == Err(StartIndexUndefined)
    ensures IndexMapping([0xD842, 0xDFB7]) == [0]
  {
    var s: seq<CodeUnit> := [0xD842, 0xDFB7];
    assert MappingFrom(s, 2) == [];
  }

  /** The corrected charAt never throws past the end and agrees with the written one
      wherever that one returns. */
  lemma CharAtCheckedAgrees(t: IndexedString, i: int)
    requires t.Valid()
    ensures t.CharAt(i).Ok? ==> t.CharAtChecked(i) == t.CharAt(i)
    ensures i >= t.length ==> t.CharAtChecked(i) == Ok([])
    ensures 0 <= i < t.length ==> t.CharAtChecked(i) == t.CharAt(i)
  {
    MappingShape(t.str, 0);
  }
}

/** UTF-16 code units and the surrogate helpers of the analyser:
    is-high-surrogate.ts, is-low-surrogate.ts, is-surrogate-pair.ts, isSurrogatePair.ts,
    combine-to-surrogate-pair.ts and convert-to-surrogate-pair.ts.
    The pairing arithmetic is the one of sections 2.1 and 2.2 of RFC 2781. */
module Surrogates {
  import opened Wrappers

  /** One UTF-16 code unit; a JavaScript string is a sequence of them. */
  type CodeUnit = x: int | 0 <= x < 0x1_0000

  /** A supplementary-plane code point, the only ones written with a surrogate pair. */
  predicate IsSupplementary(c: int) {
    0x1_0000 <= c <= 0x10_FFFF
  }

  /** isHighSurrogate: 0xD800..0xDBFF. */
  predicate IsHighSurrogate(codePoint: int) {
    0xD800 <= codePoint <= 0xDBFF
  }

  /** isLowSurrogate: 0xDC00..0xDFFF. */
  predicate IsLowSurrogate(codePoint: int) {
    0xDC00 <= codePoint <= 0xDFFF
  }

  lemma HighSurrogateExamples()
    ensures IsHighSurrogate(0xD83D)
    ensures !IsHighSurrogate(0x61)
    ensures !IsHighSurrogate(0xDE03)
  {
  }

  lemma LowSurrogateExamples()
    ensures IsLowSurrogate(0xDE03)
    ensures !IsLowSurrogate(0x61)
    ensures !IsLowSurrogate(0xD83D)
  {
  }

  /** No value is both a high and a low surrogate. */
  lemma SurrogateRangesDisjoint(codePoint: int)
    ensures !(IsHighSurrogate(codePoint) && IsLowSurrogate(codePoint))
  {
  }

  /** A string whose every high surrogate is followed by a low surrogate (a lone low
      surrogate is allowed: the encoder writes it as a three-byte sequence). */
  ghost predicate HighsPaired(s: seq<CodeUnit>) {
    forall i :: 0 <= i < |s| && IsHighSurrogate(s[i]) ==> i + 1 < |s| && IsLowSurrogate(s[i + 1])
  }

  // ---------------------------------------------------------------------------
  // Splitting a code point into a pair (section 2.1 of RFC 2781): the reference
  // definition that the two combining functions below are checked against.

  function HighHalf(c: int): int
    requires IsSupplementary(c)
  {
    0xD800 + (c - 0x1_0000) / 0x400
  }

  function LowHalf(c: int): int
    requires IsSupplementary(c)
  {
    0xDC00 + (c - 0x1_0000) % 0x400
  }

  lemma HalvesAreSurrogates(c: int)
    requires IsSupplementary(c)
    ensures IsHighSurrogate(HighHalf(c)) && IsLowSurrogate(LowHalf(c))
  {
  }

  // ---------------------------------------------------------------------------
  // convert-to-surrogate-pair.ts: the bare arithmetic, no validation.

  function ConvertToSurrogatePair(highSurrogateCodePoint: int, lowSurrogateCodePoint: int): int {
    (highSurrogateCodePoint - 0xD800) * 0x400 + (lowSurrogateCodePoint - 0xDC00) + 0x1_0000
  }

  /** For a genuine pair the result is a supplementary code point whose halves are the inputs
      (section 2.2 of RFC 2781 undoes section 2.1). */
  lemma ConvertInvertsSplit(hi: int, lo: int)
    requires IsHighSurrogate(hi) && IsLowSurrogate(lo)
    ensures IsSupplementary(ConvertToSurrogatePair(hi, lo))
    ensures HighHalf(ConvertToSurrogatePair(hi, lo)) == hi
    ensures LowHalf(ConvertToSurrogatePair(hi, lo)) == lo
  {
    var h, l := hi - 0xD800, lo - 0xDC00;
    assert ConvertToSurrogatePair(hi, lo) - 0x1_0000 == h * 0x400 + l;
    DivModUnique(h * 0x400 + l, h, l);
  }

  /** Splitting and recombining gives the code point back. */
  lemma SplitThenConvert(c: int)
    requires IsSupplementary(c)
    ensures ConvertToSurrogatePair(HighHalf(c), LowHalf(c)) == c
  {
  }

  lemma ConvertExample()
    ensures ConvertToSurrogatePair(0xD83D, 0xDE03) == 0x1_F603
  {
  }

  lemma DivModUnique(x: int, q: int, r: int)
    requires 0 <= r < 0x400 && x == q * 0x400 + r
    ensures x / 0x400 == q && x % 0x400 == r
  {
  }

  // ---------------------------------------------------------------------------
  // combine-to-surrogate-pair.ts: the same arithmetic behind two RangeError guards.

  datatype SurrogateError = NotHighSurrogate | NotLowSurrogate

  function CombineToSurrogatePair(highSurrogateCodePoint: int, lowSurrogateCodePoint: int): (r: Result<int, SurrogateError>)
    ensures !IsHighSurrogate(highSurrogateCodePoint) ==> r == Err(NotHighSurrogate)
    ensures IsHighSurrogate(highSurrogateCodePoint) && !IsLowSurrogate(lowSurrogateCodePoint) ==> r == Err(NotLowSurrogate)
    ensures r.Ok? <==> IsHighSurrogate(highSurrogateCodePoint) && IsLowSurrogate(lowSurrogateCodePoint)
    ensures r.Ok? ==>
              && IsSupplementary(r.value)
              && HighHalf(r.value) == highSurrogateCodePoint
              && LowHalf(r.value) == lowSurrogateCodePoint
  {
    if !IsHighSurrogate(highSurrogateCodePoint) then
      Err(NotHighSurrogate)
    else if !IsLowSurrogate(lowSurrogateCodePoint) then
      Err(NotLowSurrogate)
    else
      ConvertInvertsSplit(highSurrogateCodePoint, lowSurrogateCodePoint);
      Ok((highSurrogateCodePoint - 0xD800) * 0x400 + (lowSurrogateCodePoint - 0xDC00) + 0x1_0000)
  }

  /** The checked and the unchecked combiner agree wherever the checked one succeeds. */
  lemma CombineAgreesWithConvert(hi: int, lo: int)
    requires IsHighSurrogate(hi) && IsLowSurrogate(lo)
    ensures CombineToSurrogatePair(hi, lo) == Ok(ConvertToSurrogatePair(hi, lo))
  {
  }

  /** Distinct pairs give distinct code points. */
  lemma CombineInjective(hi1: int, lo1: int, hi2: int, lo2: int)
    requires CombineToSurrogatePair(hi1, lo1).Ok? && CombineToSurrogatePair(hi2, lo2).Ok?
    requires CombineToSurrogatePair(hi1, lo1) == CombineToSurrogatePair(hi2, lo2)
    ensures hi1 == hi2 && lo1 == lo2
  {
  }

  lemma CombineExamples()
    ensures CombineToSurrogatePair(0xD83D, 0xDE03) == Ok(0x1_F603)
    ensures CombineToSurrogatePair(0x61, 0xDE03) == Err(NotHighSurrogate)
    ensures CombineToSurrogatePair(0xD83D, 0x61) == Err(NotLowSurrogate)
  {
  }

  // ---------------------------------------------------------------------------
  // is-surrogate-pair.ts: named and documented as "high or low surrogate",
  // but the code tests the high range only.

  /** The function as written. */
  predicate IsSurrogatePairCode(codePoint: int) {
    0xD800 <= codePoint <= 0xDBFF
  }

  /** As written it is isHighSurrogate under another name, so it rejects the low half
      of every supplementary code point. */
  lemma IsSurrogatePairCodeMissesLowHalves(c: int)
    requires IsSupplementary(c)
    ensures IsSurrogatePairCode(HighHalf(c)) && !IsSurrogatePairCode(LowHalf(c))
    ensures forall cp :: IsSurrogatePairCode(cp) <==> IsHighSurrogate(cp)
  {
    HalvesAreSurrogates(c);
  }

  lemma IsSurrogatePairCodeExamples()
    ensures IsSurrogatePairCode(0xD83D)
    ensures !IsSurrogatePairCode(0x61)
    ensures !IsSurrogatePairCode(0xDE03)
  {
  }

  /** The documented intent: a high or a low surrogate. */
  predicate IsSurrogateCodeUnit(codePoint: int) {
    IsHighSurrogate(codePoint) || IsLowSurrogate(codePoint)
  }

  /** The intended predicate accepts both halves of every pair and nothing else
      from the basic multilingual plane outside 0xD800..0xDFFF. */
  lemma IsSurrogateCodeUnitAcceptsBothHalves(c: int)
    requires IsSupplementary(c)
    ensures IsSurrogateCodeUnit(HighHalf(c)) && IsSurrogateCodeUnit(LowHalf(c))
    ensures IsSurrogateCodeUnit(0xDE03) && IsSurrogateCodeUnit(0xD83D) && !IsSurrogateCodeUnit(0x61)
    ensures forall cp :: IsSurrogateCodeUnit(cp) <==> 0xD800 <= cp <= 0xDFFF
  {
    HalvesAreSurrogates(c);
  }

  // ---------------------------------------------------------------------------
  // isSurrogatePair.ts: a string is judged by its first code unit, a number directly.

  datatype CharOrCode = Text(s: seq<CodeUnit>) | Number(n: int)

  /** The code unit the predicate compares: `charCodeAt(0)` of a string (`NaN`, here `None`,
      for the empty string) or the number itself. */
  function JudgedUnit(value: CharOrCode): Option<int> {
    match value
    case Text(s) => if |s| == 0 then None else Some(s[0])
    case Number(n) => Some(n)
  }

  predicate IsSurrogatePair(value: CharOrCode) {
    match JudgedUnit(value)
    case None => false          // NaN fails both comparisons
    case Some(u) => u >= 0xD800 && u <= 0xDBFF
  }

  /** The high range only, judged on the first code unit; the empty string is rejected. */
  lemma IsSurrogatePairMeansHigh(value: CharOrCode)
    ensures IsSurrogatePair(value) <==> JudgedUnit(value).Some? && IsHighSurrogate(JudgedUnit(value).value)
    ensures value.Text? ==> (IsSurrogatePair(value) <==> |value.s| > 0 && IsHighSurrogate(value.s[0]))
    ensures value.Number? ==> (IsSurrogatePair(value) <==> IsHighSurrogate(value.n))
    ensures !IsSurrogatePair(Text([]))
  {
  }
}

/** surrogate-aware-string.ts: a string viewed as the array of its code points, as the
    spread operator `[...rawString]` produces it. A high surrogate directly followed by a
    low surrogate is one element of two code units; every other code unit, including a
    lone surrogate, is an element of its own. */
module SpreadStrings {
  import opened Wrappers
  import opened Surrogates

  /** One element of the spread array: a single code unit or a genuine surrogate pair. */
  predicate IsCodePointElement(e: seq<CodeUnit>) {
    |e| == 1 || (|e| == 2 && IsHighSurrogate(e[0]) && IsLowSurrogate(e[1]))
  }

  /** A lone high-surrogate element directly followed by an element starting with a low
      surrogate: a pair that was wrongly split. */
  predicate SplitPair(a: seq<CodeUnit>, b: seq<CodeUnit>) {
    |a| == 1 && |b| > 0 && IsHighSurrogate(a[0]) && IsLowSurrogate(b[0])
  }

  /** `[...s]`: string iteration by code points. */
  function Spread(s: seq<CodeUnit>): seq<seq<CodeUnit>>
    decreases |s|
  {
    if |s| == 0 then []
    else if |s| >= 2 && IsHighSurrogate(s[0]) && IsLowSurrogate(s[1]) then [s[..2]] + Spread(s[2..])
    else [s[..1]] + Spread(s[1..])
  }

  /** `Array.prototype.join("")`. */
  function Join(parts: seq<seq<CodeUnit>>): seq<CodeUnit> {
    if |parts| == 0 then [] else parts[0] + Join(parts[1..])
  }

  lemma {:induction false} JoinAppend(a: seq<seq<CodeUnit>>, b: seq<seq<CodeUnit>>)
    ensures Join(a + b) == Join(a) + Join(b)
  {
    if |a| > 0 {
      assert (a + b)[1..] == a[1..] + b;
      JoinAppend(a[1..], b);
    } else {
      assert a + b == b;
    }
  }

  /** Spreading loses nothing: joining the elements gives the string back, every element is
      one code point, and a lone high surrogate is never followed by an element that starts
      with a low surrogate (pairs are always taken together). */
  lemma {:induction false} SpreadIsCodePointSplit(s: seq<CodeUnit>)
    ensures Join(Spread(s)) == s
    ensures forall k :: 0 <= k < |Spread(s)| ==> IsCodePointElement(Spread(s)[k])
    ensures forall k :: 0 <= k < |Spread(s)| - 1 ==> !SplitPair(Spread(s)[k], Spread(s)[k + 1])
    ensures |Spread(s)| <= |s|
    ensures |s| > 0 ==> |Spread(s)| > 0 && Spread(s)[0] == (if |s| >= 2 && IsHighSurrogate(s[0]) && IsLowSurrogate(s[1]) then s[..2] else s[..1])
    decreases |s|
  {
    if |s| == 0 {
    } else {
      var w := if |s| >= 2 && IsHighSurrogate(s[0]) && IsLowSurrogate(s[1]) then 2 else 1;
      var rest := Spread(s[w..]);
      assert Spread(s) == [s[..w]] + rest;
      SpreadIsCodePointSplit(s[w..]);
      assert Join(Spread(s)) == s[..w] + Join(rest);
      assert s[..w] + s[w..] == s;
      forall k | 0 <= k < |Spread(s)| - 1
        ensures !SplitPair(Spread(s)[k], Spread(s)[k + 1])
      {
        if k == 0 && w == 1 {
          assert Spread(s)[1] == rest[0];
        } else if k > 0 {
          assert Spread(s)[k] == rest[k - 1] && Spread(s)[k + 1] == rest[k];
        }
      }
    }
  }

  /** The code point an element stands for: `element.codePointAt(0)`, `None` (undefined)
      for an empty element. */
  function ElementCodePoint(e: seq<CodeUnit>): Option<int> {
    if |e| == 0 then None
    else if |e| >= 2 && IsHighSurrogate(e[0]) && IsLowSurrogate(e[1]) then Some(ConvertToSurrogatePair(e[0], e[1]))
    else Some(e[0])
  }

  datatype CodePointError = CodePointUndefined | LowSurrogateUndefined | NotASurrogatePair(cause: SurrogateError)

  /** The class: an immutable spread array built once from the raw string. */
  datatype SurrogateAwareString = SurrogateAwareString(spreaded: seq<seq<CodeUnit>>) {

    /** Number of code points (a surrogate pair counts once). */
    function Length(): nat {
      |spreaded|
    }

    predicate IsIndexOutOfBounds(index: int) {
      |spreaded| <= index || index < 0
    }

    /** `charAt(pos)`; JavaScript's default argument is 0. */
    function CharAt(pos: int): seq<CodeUnit> {
      if IsIndexOutOfBounds(pos) then [] else spreaded[pos]
    }

    /** `codePointAt(pos)`: `None` stands for `NaN`, `Err` for the thrown errors. */
    function CodePointAt(pos: int): Result<Option<int>, CodePointError> {
      if IsIndexOutOfBounds(pos) then Ok(None)
      else match ElementCodePoint(spreaded[pos])
        case None => Err(CodePointUndefined)
        case Some(codePoint) =>
          if !IsHighSurrogate(codePoint) then Ok(Some(codePoint))
          else
            var next := if pos + 1 < |spreaded| then ElementCodePoint(spreaded[pos + 1]) else None;
            match next
            case None => Err(LowSurrogateUndefined)
            case Some(lowSurrogateCodePoint) =>
              match CombineToSurrogatePair(codePoint, lowSurrogateCodePoint)
              case Ok(v) => Ok(Some(v))
              case Err(e) => Err(NotASurrogatePair(e))
    }

    /** `slice(start)` of the array, then `join("")`: a negative start counts from the end. */
    function Slice(start: int): seq<CodeUnit> {
      Join(spreaded[SliceStart(start, |spreaded|)..])
    }

    /** `toString()`. */
    function ToString(): seq<CodeUnit> {
      Join(spreaded)
    }
  }

  /** The first index `Array.prototype.slice(start)` keeps. */
  function SliceStart(start: int, length: nat): (k: nat)
    ensures k <= length
  {
    if start < 0 then (if length + start < 0 then 0 else length + start)
    else if start < length then start else length
  }

  /** `new SurrogateAwareString(rawString)`. */
  function FromRaw(rawString: seq<CodeUnit>): SurrogateAwareString {
    SurrogateAwareString(Spread(rawString))
  }

  /** Every element of a constructed string is a non-empty code point. */
  lemma ElementsNonEmpty(raw: seq<CodeUnit>)
    ensures forall k :: 0 <= k < FromRaw(raw).Length() ==> |FromRaw(raw).spreaded[k]| > 0
  {
    SpreadIsCodePointSplit(raw);
  }

  /** toString gives back the raw string. */
  lemma ToStringRoundTrip(raw: seq<CodeUnit>)
    ensures FromRaw(raw).ToString() == raw
  {
    SpreadIsCodePointSplit(raw);
  }

  /** charAt gives one whole code point for every index in range and "" exactly outside it;
      the characters before index pos, followed by slice(pos), spell the raw string. */
  lemma CharAtMeaning(raw: seq<CodeUnit>, pos: int)
    ensures 0 <= pos < FromRaw(raw).Length() ==> IsCodePointElement(FromRaw(raw).CharAt(pos))
    ensures FromRaw(raw).CharAt(pos) == [] <==> pos < 0 || pos >= FromRaw(raw).Length()
    ensures 0 <= pos < FromRaw(raw).Length() ==>
              Join(FromRaw(raw).spreaded[..pos]) + FromRaw(raw).CharAt(pos) + FromRaw(raw).Slice(pos + 1) == raw
  {
    var t := FromRaw(raw);
    SpreadIsCodePointSplit(raw);
    if 0 <= pos < t.Length() {
      JoinAround(t.spreaded, pos);
    }
  }

  /** Joining the parts before pos, part pos and the parts after it joins them all. */
  lemma {:induction false} JoinAround(parts: seq<seq<CodeUnit>>, pos: nat)
    requires pos < |parts|
    ensures Join(parts[..pos]) + parts[pos] + Join(parts[pos + 1..]) == Join(parts)
  {
    if pos > 0 {
      var tail := parts[1..];
      JoinAround(tail, pos - 1);
      assert parts[..pos][1..] == tail[..pos - 1];
      assert tail[pos..] == parts[pos + 1..];
      assert tail[pos - 1] == parts[pos];
    } else {
      assert parts[1..] == parts[pos + 1..];
    }
  }

  /** codePointAt: `NaN` outside the string; the full code point of a genuine pair; the code
      unit itself for every other element except a lone high surrogate, where the combiner
      always throws (a lone high element is never followed by a low surrogate). */
  lemma CodePointAtMeaning(raw: seq<CodeUnit>, pos: int)
    ensures var t := FromRaw(raw); var r := t.CodePointAt(pos);
      && (r == Ok(None) <==> pos < 0 || pos >= t.Length())
      && (0 <= pos < t.Length() && |t.spreaded[pos]| == 2 ==>
            r.Ok? && r.value.Some? && IsSupplementary(r.value.value)
            && HighHalf(r.value.value) == t.spreaded[pos][0] && LowHalf(r.value.value) == t.spreaded[pos][1])
      && (0 <= pos < t.Length() && |t.spreaded[pos]| == 1 && !IsHighSurrogate(t.spreaded[pos][0]) ==>
            r == Ok(Some(t.spreaded[pos][0])))
      && (0 <= pos < t.Length() && |t.spreaded[pos]| == 1 && IsHighSurrogate(t.spreaded[pos][0]) ==>
            r.Err?)
  {
    var t := FromRaw(raw);
    SpreadIsCodePointSplit(raw);
    if 0 <= pos < t.Length() {
      var e := t.spreaded[pos];
      if |e| == 2 {
        ConvertInvertsSplit(e[0], e[1]);
      } else if IsHighSurrogate(e[0]) && pos + 1 < t.Length() {
        var n := t.spreaded[pos + 1];
        if |n| == 2 {
          ConvertInvertsSplit(n[0], n[1]);
        }
      }
    }
  }

  /** slice keeps the code points from the JavaScript start index on: all of them for a start
      at or below minus the length, none for a start at or past the length. */
  lemma SliceMeaning(raw: seq<CodeUnit>, start: int)
    ensures var t := FromRaw(raw);
      && Join(t.spreaded[..SliceStart(start, t.Length())]) + t.Slice(start) == raw
      && (start >= t.Length() ==> t.Slice(start) == [])
      && (start <= -(t.Length() as int) || start == 0 ==> t.Slice(start) == raw)
  {
    var t := FromRaw(raw);
    var k := SliceStart(start, t.Length());
    SpreadIsCodePointSplit(raw);
    assert t.spreaded[..k] + t.spreaded[k..] == t.spreaded;
    JoinAppend(t.spreaded[..k], t.spreaded[k..]);
    if k == 0 {
      assert t.spreaded[..k] == [];
    }
  }

  /** The examples of the source's test suite: "𠮷野屋" (U+20BB7, U+91CE, U+5C4B). */
  lemma TestSuiteExamples()
    ensures FromRaw([0xD842, 0xDFB7, 0x91CE, 0x5C4B]).Length() == 3
    ensures FromRaw([0xD842, 0xDFB7]).Length() == 1
    ensures FromRaw([0xD842, 0xDFB7, 0x91CE, 0x5C4B]).CharAt(0) == [0xD842, 0xDFB7]
    ensures FromRaw([0xD842, 0xDFB7, 0x91CE, 0x5C4B]).CharAt(1) == [0x91CE]
    ensures FromRaw([0xD842, 0xDFB7]).CharAt(1) == []
    ensures FromRaw([0xD842, 0xDFB7]).CodePointAt(0) == Ok(Some(0x2_0BB7))
    ensures FromRaw([0xD842, 0xDFB7, 0x91CE, 0x5C4B]).Slice(1) == [0x91CE, 0x5C4B]
    ensures FromRaw([0xD842, 0xDFB7, 0x91CE, 0x5C4B]).Slice(-2) == [0x91CE, 0x5C4B]
    ensures FromRaw([0xD842, 0xDFB7, 0x91CE, 0x5C4B]).Slice(-4) == [0xD842, 0xDFB7, 0x91CE, 0x5C4B]
  {
    var s: seq<CodeUnit> := [0xD842, 0xDFB7, 0x91CE, 0x5C4B];
    SampleSpreads();
    var t := FromRaw(s);
    assert t.spreaded[1..] == [[0x91CE], [0x5C4B]];
    assert Join([[0x5C4B]]) == [0x5C4B];
    assert Join(t.spreaded[1..]) == [0x91CE, 0x5C4B];
    assert Join(t.spreaded) == [0xD842, 0xDFB7] + Join(t.spreaded[1..]);
  }

  /** The spread arrays of the test suite's sample strings. */
  lemma SampleSpreads()
    ensures Spread([0xD842, 0xDFB7, 0x91CE, 0x5C4B]) == [[0xD842, 0xDFB7], [0x91CE], [0x5C4B]]
    ensures Spread([0xD842, 0xDFB7]) == [[0xD842, 0xDFB7]]
  {
    var s: seq<CodeUnit> := [0xD842, 0xDFB7, 0x91CE, 0x5C4B];
    var s3, s2 := s[3..], s[2..];
    assert s3 == [0x5C4B] && s3[..1] == [0x5C4B] && s3[1..] == [];
    assert Spread(s3[1..]) == [];
    assert Spread(s3) == [[0x5C4B]];
    assert s2 == [0x91CE, 0x5C4B] && s2[..1] == [0x91CE] && s2[1..] == s3;
    assert Spread(s2) == [[0x91CE]] + Spread(s3);
    assert Spread(s2) == [[0x91CE], [0x5C4B]];
    assert s[2..] == s2;
    assert s[..2] == [0xD842, 0xDFB7];
    assert Spread(s) == [[0xD842, 0xDFB7], [0x91CE], [0x5C4B]];
    var p: seq<CodeUnit> := [0xD842, 0xDFB7];
    assert p[..2] == p && p[2..] == [];
    assert Spread(p) == [[0xD842, 0xDFB7]];
  }
}

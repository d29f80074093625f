/** stringToUtf8Bytes.ts and utf8-bytes-to-string.ts: the UTF-8 encoder and decoder of
    section 3 of RFC 3629, with surrogate pairs joined and split as in sections 2.1 and 2.2
    of RFC 2781. The shifts, masks and ORs of the source act on disjoint bit fields, so they
    are written here as the equal divisions, remainders and sums. */
module Utf8 {
  import opened Wrappers
  import opened Surrogates

  /** One element of a `Uint8Array`. */
  type Byte = x: int | 0 <= x < 0x100

  datatype EncodeError = MalformedSurrogatePair | MalformedUcs4

  datatype DecodeError = MissingContinuationByte

  /** Prefix a successful result; an error passes through. */
  function Prepend<T, E>(prefix: seq<T>, r: Result<seq<T>, E>): Result<seq<T>, E> {
    match r
    case Ok(v) => Ok(prefix + v)
    case Err(e) => Err(e)
  }

  lemma PrependNothing<T, E>(r: Result<seq<T>, E>)
    ensures Prepend([], r) == r
  {
    if r.Ok? {
      assert [] + r.value == r.value;
    }
  }

  lemma PrependTwice<T, E>(a: seq<T>, b: seq<T>, r: Result<seq<T>, E>)
    ensures Prepend(a, Prepend(b, r)) == Prepend(a + b, r)
  {
    if r.Ok? {
      assert a + (b + r.value) == (a + b) + r.value;
    }
  }

  // ---------------------------------------------------------------------------
  // Encoder

  /** The bytes one code point is written with. */
  function EncodeCodePoint(c: nat): Result<seq<Byte>, EncodeError> {
    if c < 0x80 then Ok([c])
    else if c < 0x800 then Ok([0xC0 + c / 0x40, 0x80 + c % 0x40])
    else if c < 0x1_0000 then Ok([0xE0 + c / 0x1000, 0x80 + (c / 0x40) % 0x40, 0x80 + c % 0x40])
    else if c < 0x20_0000 then
      Ok([0xF0 + c / 0x4_0000, 0x80 + (c / 0x1000) % 0x40, 0x80 + (c / 0x40) % 0x40, 0x80 + c % 0x40])
    else Err(MalformedUcs4)
  }

  /** The encoder's result for a whole string: a high surrogate takes the next unit with it and
      must be followed by a low surrogate; every other unit is encoded on its own. */
  function Utf8Encode(s: seq<CodeUnit>): Result<seq<Byte>, EncodeError>
    decreases |s|
  {
    if |s| == 0 then Ok([])
    else if IsHighSurrogate(s[0]) then
      if |s| >= 2 && IsLowSurrogate(s[1]) then
        match EncodeCodePoint(ConvertToSurrogatePair(s[0], s[1]))
        case Ok(w) => Prepend(w, Utf8Encode(s[2..]))
        case Err(e) => Err(e)
      else Err(MalformedSurrogatePair)
    else
      match EncodeCodePoint(s[0])
      case Ok(w) => Prepend(w, Utf8Encode(s[1..]))
      case Err(e) => Err(e)
  }

  /** The encoder: writes into a buffer of four bytes per code unit and returns the
      written prefix. */
  method StringToUtf8Bytes(str: seq<CodeUnit>) returns (r: Result<seq<Byte>, EncodeError>)
    ensures r == Utf8Encode(str)
    ensures r.Ok? ==> |r.value| <= 4 * |str|
  {
    var bytes := new Byte[|str| * 4];
    var strLen := |str|;
    var i, j := 0, 0;
    assert str[i..] == str && bytes[..j] == [];
    PrependNothing(Utf8Encode(str));
    while i < strLen
      invariant 0 <= i <= strLen && 0 <= j <= 3 * i
      invariant Utf8Encode(str) == Prepend(bytes[..j], Utf8Encode(str[i..]))
    {
      ghost var start := i;
      var utf16Code := str[i];
      var unicodeCode: nat;
      i := i + 1;
      if IsSurrogatePair(Number(utf16Code)) {
        var highSurrogates := utf16Code;
        // `charCodeAt` past the end is NaN, which is no low surrogate
        var lowSurrogates: Option<CodeUnit> := if i < strLen then Some(str[i]) else None;
        i := i + 1;
        if lowSurrogates.Some? && IsLowSurrogate(lowSurrogates.value) {
          unicodeCode := (highSurrogates - 0xD800) * 0x400 + 0x1_0000 + (lowSurrogates.value - 0xDC00);
          assert unicodeCode == ConvertToSurrogatePair(str[start], str[start + 1]);
        } else {
          assert Utf8Encode(str[start..]) == Err(MalformedSurrogatePair) by {
            assert str[start..][0] == utf16Code;
            assert |str[start..]| >= 2 ==> str[start..][1] == str[start + 1];
          }
          return Err(MalformedSurrogatePair);
        }
      } else {
        unicodeCode := utf16Code;
      }
      assert str[start..][i - start..] == str[i..];
      ghost var rest := str[start..];
      assert rest[0] == str[start] && (|rest| >= 2 ==> rest[1] == str[start + 1]);
      assert HeadCode(rest) == unicodeCode && HeadWidth(rest) == i - start;
      EncodeStep(rest);
      PrependTwice(bytes[..j], EncodeCodePoint(unicodeCode).value, Utf8Encode(str[i..]));
      var written := WriteCodePoint(bytes, j, unicodeCode);
      if written.Err? {
        // the malformed-UCS4 branch: no code point read from UTF-16 reaches 2^21
        assert false;
      }
      j := written.value;
    }
    assert str[i..] == [] && bytes[..j] + [] == bytes[..j];
    r := Ok(bytes[..j]);
  }

  /** The four branches of the encoder that write one code point at offset j; a code point
      of 2^21 or more is the malformed-UCS4 error. */
  method WriteCodePoint(bytes: array<Byte>, j: nat, unicodeCode: nat) returns (r: Result<nat, EncodeError>)
    requires EncodeCodePoint(unicodeCode).Ok? ==> j + |EncodeCodePoint(unicodeCode).value| <= bytes.Length
    modifies bytes
    ensures EncodeCodePoint(unicodeCode).Err? ==> r == Err(MalformedUcs4) && unchanged(bytes)
    ensures EncodeCodePoint(unicodeCode).Ok? ==>
              && r == Ok(j + |EncodeCodePoint(unicodeCode).value|)
              && bytes[..r.value] == old(bytes[..j]) + EncodeCodePoint(unicodeCode).value
  {
    if unicodeCode < 0x80 {
      bytes[j] := unicodeCode;
      r := Ok(j + 1);
    } else if unicodeCode < 0x800 {
      bytes[j] := 0xC0 + unicodeCode / 0x40;
      bytes[j + 1] := 0x80 + unicodeCode % 0x40;
      r := Ok(j + 2);
    } else if unicodeCode < 0x1_0000 {
      bytes[j] := 0xE0 + unicodeCode / 0x1000;
      bytes[j + 1] := 0x80 + (unicodeCode / 0x40) % 0x40;
      bytes[j + 2] := 0x80 + unicodeCode % 0x40;
      r := Ok(j + 3);
    } else if unicodeCode < 0x20_0000 {
      bytes[j] := 0xF0 + unicodeCode / 0x4_0000;
      bytes[j + 1] := 0x80 + (unicodeCode / 0x1000) % 0x40;
      bytes[j + 2] := 0x80 + (unicodeCode / 0x40) % 0x40;
      bytes[j + 3] := 0x80 + unicodeCode % 0x40;
      r := Ok(j + 4);
    } else {
      r := Err(MalformedUcs4);
    }
  }

  /** The width of the first character the encoder reads: two units for a genuine pair. */
  function HeadWidth(s: seq<CodeUnit>): nat
    requires |s| > 0
  {
    if IsHighSurrogate(s[0]) && |s| >= 2 && IsLowSurrogate(s[1]) then 2 else 1
  }

  /** The code point of that first character. */
  function HeadCode(s: seq<CodeUnit>): nat
    requires |s| > 0
  {
    if HeadWidth(s) == 2 then ConvertToSurrogatePair(s[0], s[1]) else s[0]
  }

  /** One step of the encoder: the first character's bytes, then the rest. */
  lemma EncodeStep(s: seq<CodeUnit>)
    requires |s| > 0 && !(IsHighSurrogate(s[0]) && HeadWidth(s) == 1)
    ensures HeadCode(s) < 0x11_0000 && EncodeCodePoint(HeadCode(s)).Ok?
    ensures HeadWidth(s) == 1 ==> HeadCode(s) < 0x1_0000
    ensures Utf8Encode(s) == Prepend(EncodeCodePoint(HeadCode(s)).value, Utf8Encode(s[HeadWidth(s)..]))
  {
    if HeadWidth(s) == 2 {
      ConvertInvertsSplit(s[0], s[1]);
    }
  }

  /** A string is well paired exactly when its first character is and the rest is. */
  lemma HighsPairedStep(s: seq<CodeUnit>)
    requires |s| > 0
    ensures HighsPaired(s) <==> !(IsHighSurrogate(s[0]) && HeadWidth(s) == 1) && HighsPaired(s[HeadWidth(s)..])
  {
    var w := HeadWidth(s);
    var t := s[w..];
    if !(IsHighSurrogate(s[0]) && w == 1) && HighsPaired(t) {
      forall i | 0 <= i < |s| && IsHighSurrogate(s[i]) ensures i + 1 < |s| && IsLowSurrogate(s[i + 1]) {
        if i >= w {
          assert s[i] == t[i - w];
          assert i + 1 < |s| ==> s[i + 1] == t[i + 1 - w];
        }
      }
    }
    if HighsPaired(s) {
      forall i | 0 <= i < |t| && IsHighSurrogate(t[i]) ensures i + 1 < |t| && IsLowSurrogate(t[i + 1]) {
        assert t[i] == s[i + w];
        assert i + w + 1 < |s| && IsLowSurrogate(s[i + w + 1]);
        assert s[i + w + 1] == t[i + 1];
      }
    }
  }

  /** A code point of the supplementary planes is below 2^21, so the malformed-UCS4 branch is
      never taken; the encoder fails exactly on a high surrogate that is not followed by a
      low surrogate, including one at the end of the string. */
  lemma {:induction false} EncodeFailsOnlyOnLoneHighSurrogate(s: seq<CodeUnit>)
    ensures Utf8Encode(s).Ok? <==> HighsPaired(s)
    ensures Utf8Encode(s) != Err(MalformedUcs4)
    decreases |s|
  {
    if |s| > 0 {
      HighsPairedStep(s);
      EncodeFailsOnlyOnLoneHighSurrogate(s[HeadWidth(s)..]);
      if !(IsHighSurrogate(s[0]) && HeadWidth(s) == 1) {
        EncodeStep(s);
      }
    }
  }

  /** At most three bytes per code unit (four bytes for a pair of two units), so the
      four-bytes-per-unit buffer always suffices. */
  lemma {:induction false} EncodeLengthBound(s: seq<CodeUnit>)
    ensures Utf8Encode(s).Ok? ==> |Utf8Encode(s).value| <= 3 * |s|
    ensures Utf8Encode(s).Ok? ==> |s| <= |Utf8Encode(s).value|
    decreases |s|
  {
    if |s| > 0 && Utf8Encode(s).Ok? {
      EncodeStep(s);
      EncodeLengthBound(s[HeadWidth(s)..]);
    }
  }

  /** The encoding holds a 0 byte exactly where the string holds a NUL unit: every other
      unit yields only non-zero bytes. */
  lemma {:induction false} EncodeZeroOnlyForNul(s: seq<CodeUnit>)
    requires Utf8Encode(s).Ok?
    ensures 0 in Utf8Encode(s).value <==> 0 in s
    decreases |s|
  {
    if |s| > 0 {
      var w := HeadWidth(s);
      EncodeStep(s);
      var head := EncodeCodePoint(HeadCode(s)).value;
      EncodeZeroOnlyForNul(s[w..]);
      assert Utf8Encode(s).value == head + Utf8Encode(s[w..]).value;
      ZeroByteOnlyForZero(HeadCode(s));
      assert s == s[..w] + s[w..];
      assert 0 in s[..w] <==> HeadCode(s) == 0 by {
        if w == 2 {
          assert s[..w] == [s[0], s[1]];
        } else {
          assert s[..w] == [s[0]];
        }
      }
    }
  }

  /** Only the code point 0 is written with a 0 byte. */
  lemma ZeroByteOnlyForZero(c: nat)
    requires EncodeCodePoint(c).Ok?
    ensures 0 in EncodeCodePoint(c).value <==> c == 0
  {
  }

  // ---------------------------------------------------------------------------
  // Decoder

  /** The length of the sequence a lead byte starts: `b1 >> 5 === 0x06` selects two bytes,
      `b1 >> 4 === 0x0e` three, and every other byte at or above 0x80, including a stray
      continuation byte, is read as a four-byte lead. */
  function SequenceLength(b1: Byte): nat {
    if b1 < 0x80 then 1
    else if b1 / 0x20 == 0x06 then 2
    else if b1 / 0x10 == 0x0E then 3
    else 4
  }

  /** The code of one sequence: the payload bits of the lead byte and the low six bits of
      every continuation byte, which is not otherwise checked. */
  function DecodeSequence(b: seq<Byte>): nat
    requires |b| > 0 && |b| == SequenceLength(b[0])
  {
    var b1: int, b2: int, b3: int, b4: int := b[0], if |b| > 1 then b[1] else 0, if |b| > 2 then b[2] else 0, if |b| > 3 then b[3] else 0;
    if |b| == 1 then b1
    else if |b| == 2 then (b1 % 0x20) * 0x40 + b2 % 0x40
    else if |b| == 3 then (b1 % 0x10) * 0x1000 + (b2 % 0x40) * 0x40 + b3 % 0x40
    else (b1 % 0x08) * 0x4_0000 + (b2 % 0x40) * 0x1000 + (b3 % 0x40) * 0x40 + b4 % 0x40
  }

  /** `String.fromCharCode` of the code, or of the surrogate pair of `code - 0x10000`. */
  function CodeToUnits(code: nat): seq<CodeUnit>
    requires code < 0x20_0000
  {
    if code < 0x1_0000 then [code]
    else [0xD800 + (code - 0x1_0000) / 0x400, 0xDC00 + (code - 0x1_0000) % 0x400]
  }

  lemma DecodedCodeBelow2To21(b: seq<Byte>)
    requires |b| > 0 && |b| == SequenceLength(b[0])
    ensures DecodeSequence(b) < 0x20_0000
    ensures |b| < 4 ==> DecodeSequence(b) < 0x1_0000
  {
  }

  /** The decoder's result: sequence by sequence, failing when the bytes run out inside one. */
  function Utf8Decode(b: seq<Byte>): Result<seq<CodeUnit>, DecodeError>
    decreases |b|
  {
    if |b| == 0 then Ok([])
    else
      var n := SequenceLength(b[0]);
      if |b| < n then Err(MissingContinuationByte)
      else
        DecodedCodeBelow2To21(b[..n]);
        Prepend(CodeToUnits(DecodeSequence(b[..n])), Utf8Decode(b[n..]))
  }

  /** One sequence read from `start` to `i` moves the decoder's result past it. */
  lemma DecodeStep(bytes: seq<Byte>, start: nat, i: nat, code: int)
    requires start < i <= |bytes| && i - start == SequenceLength(bytes[start])
    requires code == DecodeSequence(bytes[start..i])
    ensures code < 0x20_0000
    ensures Utf8Decode(bytes[start..]) == Prepend(CodeToUnits(code), Utf8Decode(bytes[i..]))
  {
    assert bytes[start..][..i - start] == bytes[start..i];
    assert bytes[start..][i - start..] == bytes[i..];
    DecodedCodeBelow2To21(bytes[start..i]);
  }

  /** One pass of the decoder loop's branches: the lead byte at i picks how many continuation
      bytes follow, and their payload bits make the code; the bytes may run out first. */
  method ReadSequence(bytes: seq<Byte>, i: nat) returns (r: Result<nat, DecodeError>, next: nat)
    requires i < |bytes|
    ensures r.Err? <==> |bytes| < i + SequenceLength(bytes[i])
    ensures r.Err? ==> r.error == MissingContinuationByte
    ensures r.Ok? ==> next == i + SequenceLength(bytes[i]) && r.value == DecodeSequence(bytes[i..next])
  {
    var b1: int := bytes[i];
    next := i + 1;
    if b1 < 0x80 {
      assert bytes[i..next] == [bytes[i]];
      return Ok(b1), next;
    } else if b1 / 0x20 == 0x06 {
      if next >= |bytes| {
        return Err(MissingContinuationByte), next;
      }
      var b2: int := bytes[next];
      next := next + 1;
      assert bytes[i..next] == [bytes[i], bytes[i + 1]];
      return Ok((b1 % 0x20) * 0x40 + b2 % 0x40), next;
    } else if b1 / 0x10 == 0x0E {
      if next >= |bytes| {
        return Err(MissingContinuationByte), next;
      }
      var b2: int := bytes[next];
      next := next + 1;
      if next >= |bytes| {
        return Err(MissingContinuationByte), next;
      }
      var b3: int := bytes[next];
      next := next + 1;
      assert bytes[i..next] == [bytes[i], bytes[i + 1], bytes[i + 2]];
      return Ok((b1 % 0x10) * 0x1000 + (b2 % 0x40) * 0x40 + b3 % 0x40), next;
    } else {
      if next >= |bytes| {
        return Err(MissingContinuationByte), next;
      }
      var b2: int := bytes[next];
      next := next + 1;
      if next >= |bytes| {
        return Err(MissingContinuationByte), next;
      }
      var b3: int := bytes[next];
      next := next + 1;
      if next >= |bytes| {
        return Err(MissingContinuationByte), next;
      }
      var b4: int := bytes[next];
      next := next + 1;
      assert bytes[i..next] == [bytes[i], bytes[i + 1], bytes[i + 2], bytes[i + 3]];
      return Ok((b1 % 0x08) * 0x4_0000 + (b2 % 0x40) * 0x1000 + (b3 % 0x40) * 0x40 + b4 % 0x40), next;
    }
  }

  /** The decoder: a loop over lead bytes that appends one or two code units per sequence. */
  method Utf8BytesToString(bytes: seq<Byte>) returns (r: Result<seq<CodeUnit>, DecodeError>)
    ensures r == Utf8Decode(bytes)
  {
    var str: seq<CodeUnit> := [];
    var i := 0;
    assert bytes[i..] == bytes;
    PrependNothing(Utf8Decode(bytes));
    while i < |bytes|
      invariant 0 <= i <= |bytes|
      invariant Utf8Decode(bytes) == Prepend(str, Utf8Decode(bytes[i..]))
    {
      var step, next := ReadSequence(bytes, i);
      if step.Err? {
        assert Utf8Decode(bytes[i..]) == Err(MissingContinuationByte);
        return Err(MissingContinuationByte);
      }
      var code := step.value;
      DecodeStep(bytes, i, next, code);
      ghost var units := CodeToUnits(code);
      PrependTwice(str, units, Utf8Decode(bytes[next..]));
      if code < 0x1_0000 {
        str := str + [code];
      } else {
        code := code - 0x1_0000;
        var upper := 0xD800 + code / 0x400;
        var lower := 0xDC00 + code % 0x400;
        str := str + [upper, lower];
      }
      i := next;
    }
    assert bytes[i..] == [] && str + [] == str;
    r := Ok(str);
  }

  /** Every sequence yields one or two units, so the text is never longer than the bytes. */
  lemma {:induction false} DecodeLengthBound(b: seq<Byte>)
    ensures Utf8Decode(b).Ok? ==> |Utf8Decode(b).value| <= |b|
    decreases |b|
  {
    if |b| > 0 && |b| >= SequenceLength(b[0]) {
      DecodeLengthBound(b[SequenceLength(b[0])..]);
    }
  }

  // ---------------------------------------------------------------------------
  // Round trip

  /** The bytes of one code point below 0x110000 form one sequence that decodes to the
      units of that code point. */
  lemma EncodedCodePointDecodes(c: nat)
    requires c < 0x11_0000
    ensures var w := EncodeCodePoint(c);
      && w.Ok? && |w.value| > 0 && SequenceLength(w.value[0]) == |w.value|
      && DecodeSequence(w.value) == c
  {
    if c < 0x80 {
    } else if c < 0x800 {
      TwoByteDecodes(c);
    } else if c < 0x1_0000 {
      ThreeByteDecodes(c);
    } else {
      FourByteDecodes(c);
    }
  }

  lemma TwoByteDecodes(c: nat)
    requires 0x80 <= c < 0x800
    ensures var w := EncodeCodePoint(c).value;
      |w| == 2 && SequenceLength(w[0]) == 2 && DecodeSequence(w) == c
  {
    var w := EncodeCodePoint(c).value;
    var lead := 0xC0 + c / 0x40;
    assert w == [lead, 0x80 + c % 0x40];
    assert lead / 0x20 == 0x06;
    assert lead % 0x20 == c / 0x40;
    assert (0x80 + c % 0x40) % 0x40 == c % 0x40;
  }

  lemma ThreeByteDecodes(c: nat)
    requires 0x800 <= c < 0x1_0000
    ensures var w := EncodeCodePoint(c).value;
      |w| == 3 && SequenceLength(w[0]) == 3 && DecodeSequence(w) == c
  {
    var w := EncodeCodePoint(c).value;
    var lead := 0xE0 + c / 0x1000;
    var mid := 0x80 + (c / 0x40) % 0x40;
    var last := 0x80 + c % 0x40;
    assert w == [lead, mid, last];
    assert lead / 0x20 == 0x07;
    assert lead / 0x10 == 0x0E;
    assert lead % 0x10 == c / 0x1000;
    assert mid % 0x40 == (c / 0x40) % 0x40;
    assert last % 0x40 == c % 0x40;
    DigitsOf(c);
  }

  lemma FourByteDecodes(c: nat)
    requires 0x1_0000 <= c < 0x11_0000
    ensures var w := EncodeCodePoint(c).value;
      |w| == 4 && SequenceLength(w[0]) == 4 && DecodeSequence(w) == c
  {
    var w := EncodeCodePoint(c).value;
    var lead := 0xF0 + c / 0x4_0000;
    var b2 := 0x80 + (c / 0x1000) % 0x40;
    var b3 := 0x80 + (c / 0x40) % 0x40;
    var b4 := 0x80 + c % 0x40;
    assert w == [lead, b2, b3, b4];
    assert c / 0x4_0000 <= 4;
    assert lead / 0x20 == 0x07 && lead / 0x10 == 0x0F;
    assert lead % 0x08 == c / 0x4_0000;
    assert b2 % 0x40 == (c / 0x1000) % 0x40;
    assert b3 % 0x40 == (c / 0x40) % 0x40;
    assert b4 % 0x40 == c % 0x40;
    DigitsOf(c);
  }

  /** The base-64 digits of a code point. */
  lemma DigitsOf(c: nat)
    ensures c == (c / 0x4_0000) * 0x4_0000 + ((c / 0x1000) % 0x40) * 0x1000 + ((c / 0x40) % 0x40) * 0x40 + c % 0x40
    ensures c < 0x1_0000 ==> c == (c / 0x1000) * 0x1000 + ((c / 0x40) % 0x40) * 0x40 + c % 0x40
  {
    var d0, q0 := c % 0x40, c / 0x40;
    var d1, q1 := q0 % 0x40, q0 / 0x40;
    var d2, q2 := q1 % 0x40, q1 / 0x40;
    assert c == q0 * 0x40 + d0;
    assert q0 == q1 * 0x40 + d1;
    assert q1 == q2 * 0x40 + d2;
    assert q1 == c / 0x1000;
    assert q2 == c / 0x4_0000;
  }

  /** The units a decoded code point becomes are the ones it was encoded from. */
  lemma CodeUnitsOfPair(hi: CodeUnit, lo: CodeUnit)
    requires IsHighSurrogate(hi) && IsLowSurrogate(lo)
    ensures ConvertToSurrogatePair(hi, lo) < 0x11_0000
    ensures CodeToUnits(ConvertToSurrogatePair(hi, lo)) == [hi, lo]
  {
    ConvertInvertsSplit(hi, lo);
  }

  /** Decoding the encoder's output gives back every string it accepts, lone low surrogates
      included. */
  lemma {:induction false} DecodeInvertsEncode(s: seq<CodeUnit>)
    requires Utf8Encode(s).Ok?
    ensures Utf8Decode(Utf8Encode(s).value) == Ok(s)
    decreases |s|
  {
    if |s| > 0 {
      var w := HeadWidth(s);
      var c := HeadCode(s);
      EncodeStep(s);
      if w == 2 {
        CodeUnitsOfPair(s[0], s[1]);
        assert s[..2] == [s[0], s[1]];
      } else {
        assert s[..1] == [s[0]];
      }
      EncodedCodePointDecodes(c);
      var head := EncodeCodePoint(c).value;
      var rest := Utf8Encode(s[w..]).value;
      DecodeInvertsEncode(s[w..]);
      var all := head + rest;
      assert Utf8Encode(s).value == all;
      assert all[..|head|] == head && all[|head|..] == rest;
      assert CodeToUnits(c) == s[..w];
      assert s == s[..w] + s[w..];
    }
  }

  /** And the round trip through the two loops. */
  method RoundTrip(str: seq<CodeUnit>) returns (r: Result<seq<CodeUnit>, DecodeError>)
    requires HighsPaired(str)
    ensures r == Ok(str)
  {
    var bytes := StringToUtf8Bytes(str);
    EncodeFailsOnlyOnLoneHighSurrogate(str);
    DecodeInvertsEncode(str);
    r := Utf8BytesToString(bytes.value);
  }

  lemma EncodeExamples()
    ensures Utf8Encode([]) == Ok([])
    ensures Utf8Encode([0x61]) == Ok([0x61])
    ensures Utf8Encode([0x3042]) == Ok([0xE3, 0x81, 0x82])
    ensures Utf8Encode([0xD842, 0xDFB7]) == Ok([0xF0, 0xA0, 0xAE, 0xB7])
    ensures Utf8Encode([0xD842]) == Err(MalformedSurrogatePair)
    ensures Utf8Encode([0xD842, 0x61]) == Err(MalformedSurrogatePair)
  {
    var a: seq<CodeUnit> := [0x61];
    assert a[1..] == [];
    assert Utf8Encode(a) == Prepend([0x61], Utf8Encode([]));
    assert [0x61] + [] == [0x61];
    var b: seq<CodeUnit> := [0x3042];
    assert b[1..] == [];
    assert EncodeCodePoint(0x3042) == Ok([0xE3, 0x81, 0x82]);
    assert Utf8Encode(b) == Prepend([0xE3, 0x81, 0x82], Utf8Encode([]));
    assert [0xE3, 0x81, 0x82] + [] == [0xE3, 0x81, 0x82];
    var pair: seq<CodeUnit> := [0xD842, 0xDFB7];
    assert pair[2..] == [];
    assert ConvertToSurrogatePair(0xD842, 0xDFB7) == 0x2_0BB7;
    assert EncodeCodePoint(0x2_0BB7) == Ok([0xF0, 0xA0, 0xAE, 0xB7]);
    assert Utf8Encode(pair) == Prepend([0xF0, 0xA0, 0xAE, 0xB7], Utf8Encode([]));
    assert [0xF0, 0xA0, 0xAE, 0xB7] + [] == [0xF0, 0xA0, 0xAE, 0xB7];
  }

  lemma DecodeExamples()
    ensures Utf8Decode([]) == Ok([])
    ensures Utf8Decode([0xE3, 0x81, 0x82]) == Ok([0x3042])
    ensures Utf8Decode([0xE3, 0x81]) == Err(MissingContinuationByte)
    ensures Utf8Decode([0x80, 0x41, 0x41, 0x41]) == Ok([0x1041])
    ensures Utf8Decode([0xF0, 0xA0, 0xAE, 0xB7]) == Ok([0xD842, 0xDFB7])
  {
    DecodeHiragana();
    DecodeStrayContinuation();
    DecodeSupplementary();
  }

  lemma DecodeHiragana()
    ensures Utf8Decode([0xE3, 0x81, 0x82]) == Ok([0x3042])
  {
    var e: seq<Byte> := [0xE3, 0x81, 0x82];
    assert SequenceLength(0xE3) == 3;
    assert e[..3] == e && e[3..] == [];
    assert DecodeSequence(e) == 0x3042;
    assert Utf8Decode(e) == Prepend([0x3042], Utf8Decode([]));
    assert [0x3042] + [] == [0x3042];
  }

  lemma DecodeStrayContinuation()
    ensures Utf8Decode([0x80, 0x41, 0x41, 0x41]) == Ok([0x1041])
  {
    var stray: seq<Byte> := [0x80, 0x41, 0x41, 0x41];
    assert SequenceLength(0x80) == 4;
    assert stray[..4] == stray && stray[4..] == [];
    assert DecodeSequence(stray) == 0x1041;
    assert Utf8Decode(stray) == Prepend([0x1041], Utf8Decode([]));
    assert [0x1041] + [] == [0x1041];
  }

  lemma DecodeSupplementary()
    ensures Utf8Decode([0xF0, 0xA0, 0xAE, 0xB7]) == Ok([0xD842, 0xDFB7])
  {
    var four: seq<Byte> := [0xF0, 0xA0, 0xAE, 0xB7];
    assert SequenceLength(0xF0) == 4;
    assert four[..4] == four && four[4..] == [];
    assert DecodeSequence(four) == 0x2_0BB7;
    assert CodeToUnits(0x2_0BB7) == [0xD842, 0xDFB7];
    assert Utf8Decode(four) == Prepend([0xD842, 0xDFB7], Utf8Decode([]));
    assert [0xD842, 0xDFB7] + [] == [0xD842, 0xDFB7];
  }
}

/** ByteBuffer.ts: a growable byte array with a cursor, little-endian 16- and 32-bit
    integers and NUL-terminated UTF-8 strings. The value-level functions state what one
    operation does to the pair (bytes, position); the class runs the source's steps on a
    real array and is proved against them. */
module ByteBuffers {
  import opened Wrappers
  import opened Surrogates
  import opened Utf8
  import opened Numbers

  datatype BufferError =
    | OverShortValue          // putShort of a value above 0xFFFF
    | OverIntegerValue        // putInt of a value above 0xFFFFFFFF
    | UndefinedByte           // a read at a negative index meets `undefined`
    | EncodeFailed(encodeError: EncodeError)
    | DecodeFailed(decodeError: DecodeError)

  /** The observable state of a buffer: its bytes and its cursor. */
  datatype BufState = BufState(bytes: seq<Byte>, position: nat)

  function Zeros(n: nat): (z: seq<Byte>)
    ensures |z| == n && forall k :: 0 <= k < n ==> z[k] == 0
  {
    if n == 0 then [] else Zeros(n - 1) + [0]
  }

  /** A buffer that `put` can write to: non-empty, with the cursor at most at its end. */
  predicate Writable(st: BufState) {
    |st.bytes| > 0 && st.position <= |st.bytes|
  }

  // ---------------------------------------------------------------------------
  // Writing

  /** `put(b)`: double the array when the cursor is at its end, store `b` as a `Uint8Array`
      does (modulo 256; a store past the end is dropped) and advance the cursor. */
  function PutState(st: BufState, b: int): BufState {
    var bytes := if |st.bytes| < st.position + 1 then st.bytes + Zeros(|st.bytes|) else st.bytes;
    BufState(if st.position < |bytes| then bytes[st.position := b % 0x100] else bytes, st.position + 1)
  }

  /** Successive `put`s. */
  function PutAll(st: BufState, bs: seq<int>): BufState
    decreases |bs|
  {
    if |bs| == 0 then st else PutState(PutAll(st, bs[..|bs| - 1]), bs[|bs| - 1])
  }

  lemma PutAllSnoc(st: BufState, bs: seq<int>, b: int)
    ensures PutAll(st, bs + [b]) == PutState(PutAll(st, bs), b)
  {
    assert (bs + [b])[..|bs|] == bs;
  }

  /** On a writable buffer put stores the byte at the cursor, keeps every other byte,
      advances the cursor by one and leaves the buffer writable. */
  lemma PutStores(st: BufState, b: int)
    requires Writable(st)
    ensures var st' := PutState(st, b);
      && Writable(st') && st'.position == st.position + 1
      && |st'.bytes| >= |st.bytes|
      && st'.bytes[st.position] == b % 0x100
      && (forall k :: 0 <= k < |st.bytes| && k != st.position ==> st'.bytes[k] == st.bytes[k])
  {
  }

  /** A zero-length buffer cannot grow: doubling 0 gives 0, so every put is dropped. */
  lemma EmptyBufferDropsWrites(b: int, position: nat)
    ensures PutState(BufState([], position), b) == BufState([], position + 1)
  {
  }

  /** Successive puts on a writable buffer lay the bytes out from the cursor on. */
  lemma {:induction false} PutAllWrites(st: BufState, bs: seq<int>)
    requires Writable(st)
    ensures var st' := PutAll(st, bs);
      && Writable(st') && st'.position == st.position + |bs|
      && |st'.bytes| >= |st.bytes|
      && (forall k :: 0 <= k < |bs| ==> st'.bytes[st.position + k] == bs[k] % 0x100)
      && (forall k :: 0 <= k < st.position ==> st'.bytes[k] == st.bytes[k])
    decreases |bs|
  {
    if |bs| > 0 {
      var init := bs[..|bs| - 1];
      PutAllWrites(st, init);
      var mid := PutAll(st, init);
      PutStores(mid, bs[|bs| - 1]);
      var st' := PutAll(st, bs);
      forall k | 0 <= k < |bs| ensures st'.bytes[st.position + k] == bs[k] % 0x100 {
        if k < |bs| - 1 {
          assert init[k] == bs[k];
        }
      }
    }
  }

  /** The bytes putShort writes: `0x00ff & num` and `(0xff00 & num) >> 8`. */
  function ShortBytes(num: int): seq<int> {
    [num % 0x100, (num / 0x100) % 0x100]
  }

  /** The values putInt passes to put: the low three bytes, and the top byte as the signed
      result of `(0xff000000 & num) >> 24`. */
  function IntBytes(num: int): seq<int> {
    var top := (num / 0x100_0000) % 0x100;
    [num % 0x100, (num / 0x100) % 0x100, (num / 0x1_0000) % 0x100, if top >= 0x80 then top - 0x100 else top]
  }

  // ---------------------------------------------------------------------------
  // Reading

  /** `buffer[idx]` behind get's guard: 0 past the end, `undefined` (None) at a negative
      index. */
  function ByteAt(bytes: seq<Byte>, idx: int): Option<Byte> {
    if |bytes| < idx + 1 then Some(0)
    else if idx < 0 then None
    else Some(bytes[idx])
  }

  /** A 16-bit two's complement reading of 0..0xFFFF. */
  function Int16(value: int): int
    requires 0 <= value < 0x1_0000
  {
    if value >= 0x8000 then value - 0x1_0000 else value
  }

  /** getShort at idx: 0 when fewer than two bytes remain, a throw on a negative index. */
  function ShortAt(bytes: seq<Byte>, idx: int): Result<int, BufferError> {
    if |bytes| < idx + 2 then Ok(0)
    else if idx < 0 then Err(UndefinedByte)
    else
      var upper: int, lower: int := bytes[idx + 1], bytes[idx];
      Ok(Int16(upper * 0x100 + lower))
  }

  /** getInt at idx: `b3 << 24` is a signed 32-bit shift, the other bytes add on. */
  function IntAt(bytes: seq<Byte>, idx: int): Result<int, BufferError> {
    if |bytes| < idx + 4 then Ok(0)
    else if idx < 0 then Err(UndefinedByte)
    else
      var b0: int, b1: int, b2: int, b3: int := bytes[idx], bytes[idx + 1], bytes[idx + 2], bytes[idx + 3];
      var high := if b3 >= 0x80 then b3 * 0x100_0000 - 0x1_0000_0000 else b3 * 0x100_0000;
      Ok(high + b2 * 0x1_0000 + b1 * 0x100 + b0)
  }

  /** The cursor after a read: an explicit index leaves it, `null` advances it by the width. */
  function Advanced(position: nat, index: Option<int>, width: nat): nat {
    if index.None? then position + width else position
  }

  function ReadIndex(position: nat, index: Option<int>): int {
    if index.Some? then index.value else position
  }

  /** The bytes getString collects from idx on: up to a 0 byte, or up to the end, where get
      reads 0; the second component is the index after the terminator. */
  function Scan(bytes: seq<Byte>, idx: int): Result<(seq<Byte>, int), BufferError>
    decreases |bytes| + 1 - idx
  {
    match ByteAt(bytes, idx)
    case None => Err(UndefinedByte)
    case Some(ch) =>
      if ch == 0 then Ok(([], idx + 1))
      else
        match Scan(bytes, idx + 1)
        case Ok((rest, end)) => Ok(([ch] + rest, end))
        case Err(e) => Err(e)
  }

  /** A scan result with `prefix` collected in front of it. */
  function Prefixed(prefix: seq<Byte>, r: Result<(seq<Byte>, int), BufferError>): Result<(seq<Byte>, int), BufferError> {
    match r
    case Ok((rest, end)) => Ok((prefix + rest, end))
    case Err(e) => Err(e)
  }

  lemma PrefixedTwice(a: seq<Byte>, b: seq<Byte>, r: Result<(seq<Byte>, int), BufferError>)
    ensures Prefixed(a, Prefixed(b, r)) == Prefixed(a + b, r)
  {
    if r.Ok? {
      assert a + (b + r.value.0) == (a + b) + r.value.0;
    }
  }

  /** getString: its guard reads `index + 1`, which is 1 for a `null` index, so only an
      explicit index past the end, or an empty buffer, skips the loop. The cursor moves to
      the index after the terminator, also when decoding then fails; it is unchanged when
      a read throws. */
  function ReadString(st: BufState, index: Option<int>): (Result<seq<CodeUnit>, BufferError>, nat) {
    var idx := ReadIndex(st.position, index);
    var guard := if index.Some? then index.value + 1 else 1;
    if |st.bytes| < guard then
      assert idx >= 0;
      (Ok([]), idx)
    else
      match Scan(st.bytes, idx)
      case Err(e) => (Err(e), st.position)
      case Ok((raw, end)) =>
        assert end >= 0 by {
          ScanEnd(st.bytes, idx);
        }
        match Utf8Decode(raw)
        case Ok(s) => (Ok(s), end)
        case Err(e) => (Err(DecodeFailed(e)), end)
  }

  /** Scan stops just after the byte it ends on: one past its collected bytes. */
  lemma {:induction false} ScanEnd(bytes: seq<Byte>, idx: int)
    requires Scan(bytes, idx).Ok?
    ensures Scan(bytes, idx).value.1 == idx + |Scan(bytes, idx).value.0| + 1
    ensures idx >= 0
    decreases |bytes| + 1 - idx
  {
    var ch := ByteAt(bytes, idx).value;
    if ch != 0 {
      ScanEnd(bytes, idx + 1);
    }
  }

  // ---------------------------------------------------------------------------
  // Round trips

  /** putShort then getShort at the old cursor gives the value back, sign-extended: every
      value of -0x8000..0x7FFF exactly. */
  lemma ShortRoundTrip(st: BufState, num: int)
    requires Writable(st) && num <= 0xFFFF
    ensures ShortAt(PutAll(st, ShortBytes(num)).bytes, st.position) == Ok(Int16Wrap(num))
    ensures -0x8000 <= num < 0x8000 ==> ShortAt(PutAll(st, ShortBytes(num)).bytes, st.position) == Ok(num)
    ensures PutAll(st, ShortBytes(num)).position == st.position + 2
  {
    var bs := ShortBytes(num);
    PutAllWrites(st, bs);
    var bytes := PutAll(st, bs).bytes;
    var p := st.position;
    SmallMod(num % 0x100);
    SmallMod((num / 0x100) % 0x100);
    assert bytes[p + 0] == bs[0] % 0x100 && bytes[p + 1] == bs[1] % 0x100;
    ShortDigits(num);
  }

  lemma ShortDigits(num: int)
    ensures 0 <= (num / 0x100) % 0x100 * 0x100 + num % 0x100 < 0x1_0000
    ensures Int16((num / 0x100) % 0x100 * 0x100 + num % 0x100) == Int16Wrap(num)
  {
    var d0, q0 := num % 0x100, num / 0x100;
    var d1, q1 := q0 % 0x100, q0 / 0x100;
    assert num == q0 * 0x100 + d0;
    assert q0 == q1 * 0x100 + d1;
    var m := d1 * 0x100 + d0;
    assert num == q1 * 0x1_0000 + m;
    assert num % 0x1_0000 == m by {
      DivModUnique16(num, q1, m);
    }
    assert (num + 0x8000) % 0x1_0000 == (m + 0x8000) % 0x1_0000 by {
      DivModUnique16(num + 0x8000, q1 + (if m >= 0x8000 then 1 else 0), (m + 0x8000) % 0x1_0000);
    }
  }

  lemma DivModUnique16(x: int, q: int, r: int)
    requires 0 <= r < 0x1_0000 && x == q * 0x1_0000 + r
    ensures x % 0x1_0000 == r
  {
  }

  /** putInt then getInt at the old cursor gives the value back as a signed 32-bit integer:
      every value of -0x8000_0000..0x7FFF_FFFF exactly. */
  lemma IntRoundTrip(st: BufState, num: int)
    requires Writable(st) && num <= 0xFFFF_FFFF
    ensures IntAt(PutAll(st, IntBytes(num)).bytes, st.position) == Ok(Int32Wrap(num))
    ensures -0x8000_0000 <= num < 0x8000_0000 ==> IntAt(PutAll(st, IntBytes(num)).bytes, st.position) == Ok(num)
    ensures PutAll(st, IntBytes(num)).position == st.position + 4
  {
    var bs := IntBytes(num);
    PutAllWrites(st, bs);
    var bytes := PutAll(st, bs).bytes;
    var p := st.position;
    var top := (num / 0x100_0000) % 0x100;
    SmallMod(num % 0x100);
    SmallMod((num / 0x100) % 0x100);
    SmallMod((num / 0x1_0000) % 0x100);
    SignedTopMod(top);
    assert bytes[p + 0] == bs[0] % 0x100 && bytes[p + 1] == bs[1] % 0x100;
    assert bytes[p + 2] == bs[2] % 0x100 && bytes[p + 3] == bs[3] % 0x100;
    assert bytes[p + 3] == top;
    IntAtDigits(bytes, p, num);
  }

  /** Four bytes holding the base-256 digits of num, lowest first, read as getInt does. */
  lemma IntAtDigits(bytes: seq<Byte>, p: nat, num: int)
    requires p + 4 <= |bytes|
    requires bytes[p] == num % 0x100 && bytes[p + 1] == (num / 0x100) % 0x100
    requires bytes[p + 2] == (num / 0x1_0000) % 0x100 && bytes[p + 3] == (num / 0x100_0000) % 0x100
    ensures IntAt(bytes, p) == Ok(Int32Wrap(num))
  {
    IntDigits(num);
  }

  lemma IntDigits(num: int)
    ensures var low := (num / 0x1_0000) % 0x100 * 0x1_0000 + (num / 0x100) % 0x100 * 0x100 + num % 0x100;
      var top := (num / 0x100_0000) % 0x100;
      (if top >= 0x80 then top * 0x100_0000 - 0x1_0000_0000 else top * 0x100_0000) + low == Int32Wrap(num)
  {
    var m := (num / 0x100_0000) % 0x100 * 0x100_0000 + (num / 0x1_0000) % 0x100 * 0x1_0000
             + (num / 0x100) % 0x100 * 0x100 + num % 0x100;
    Base256Digits(num);
    var q := num / 0x1_0000_0000;
    assert 0 <= m < 0x1_0000_0000;
    assert num % 0x1_0000_0000 == m by {
      DivModUnique32(num, q, m);
    }
    assert (num + 0x8000_0000) % 0x1_0000_0000 == (m + 0x8000_0000) % 0x1_0000_0000 by {
      DivModUnique32(num + 0x8000_0000, q + (if m >= 0x8000_0000 then 1 else 0), (m + 0x8000_0000) % 0x1_0000_0000);
    }
  }

  /** num split into four base-256 digits and the multiple of 2^32 above them. */
  lemma Base256Digits(num: int)
    ensures num == num / 0x1_0000_0000 * 0x1_0000_0000 + (num / 0x100_0000) % 0x100 * 0x100_0000
                   + (num / 0x1_0000) % 0x100 * 0x1_0000 + (num / 0x100) % 0x100 * 0x100 + num % 0x100
  {
    var d0, q0 := num % 0x100, num / 0x100;
    var d1, q1 := q0 % 0x100, q0 / 0x100;
    var d2, q2 := q1 % 0x100, q1 / 0x100;
    var d3, q3 := q2 % 0x100, q2 / 0x100;
    assert num == q0 * 0x100 + d0;
    assert q0 == q1 * 0x100 + d1;
    assert q1 == q2 * 0x100 + d2;
    assert q2 == q3 * 0x100 + d3;
    assert q1 == num / 0x1_0000;
    assert q2 == num / 0x100_0000;
    assert q3 == num / 0x1_0000_0000;
  }

  lemma SmallMod(b: int)
    requires 0 <= b < 0x100
    ensures b % 0x100 == b
  {
  }

  /** The signed top byte putInt passes to put is stored as the unsigned one. */
  lemma SignedTopMod(top: int)
    requires 0 <= top < 0x100
    ensures (if top >= 0x80 then top - 0x100 else top) % 0x100 == top
  {
  }

  lemma DivModUnique32(x: int, q: int, r: int)
    requires 0 <= r < 0x1_0000_0000 && x == q * 0x1_0000_0000 + r
    ensures x % 0x1_0000_0000 == r
  {
  }

  /** Scanning laid-out bytes with no 0 among them and a 0 after them collects exactly them. */
  lemma {:induction false} ScanCollects(bytes: seq<Byte>, idx: nat, raw: seq<Byte>)
    requires idx + |raw| < |bytes|
    requires forall k :: 0 <= k < |raw| ==> bytes[idx + k] == raw[k] && raw[k] != 0
    requires bytes[idx + |raw|] == 0
    ensures Scan(bytes, idx) == Ok((raw, idx + |raw| + 1))
    decreases |raw|
  {
    if |raw| > 0 {
      ScanCollects(bytes, idx + 1, raw[1..]);
      assert [raw[0]] + raw[1..] == raw;
    }
  }

  /** Putting bytes with no 0 among them and then a 0 lays them out from the cursor, with
      the 0 right after them. */
  lemma PutTerminated(st: BufState, raw: seq<Byte>)
    requires Writable(st) && 0 !in raw
    ensures var st' := PutAll(st, raw + [0]);
      && st'.position == st.position + |raw| + 1 && st.position + |raw| < |st'.bytes|
      && (forall k :: 0 <= k < |raw| ==> st'.bytes[st.position + k] == raw[k] && raw[k] != 0)
      && st'.bytes[st.position + |raw|] == 0
  {
    var bs: seq<int> := raw + [0];
    var st' := PutAll(st, bs);
    PutAllWrites(st, bs);
    forall k | 0 <= k < |raw| ensures st'.bytes[st.position + k] == raw[k] && raw[k] != 0 {
      assert bs[k] == raw[k];
      assert raw[k] in raw;
      SmallMod(raw[k]);
    }
    assert bs[|raw|] == 0;
  }

  /** Bytes with no 0 among them, put with a terminator, are scanned back from the old cursor. */
  lemma TerminatedBytesScanBack(st: BufState, raw: seq<Byte>)
    requires Writable(st) && 0 !in raw
    ensures PutAll(st, raw + [0]).position == st.position + |raw| + 1
    ensures Scan(PutAll(st, raw + [0]).bytes, st.position) == Ok((raw, st.position + |raw| + 1))
  {
    PutTerminated(st, raw);
    ScanCollects(PutAll(st, raw + [0]).bytes, st.position, raw);
  }

  /** putString then getString at the old cursor gives back every string the encoder accepts
      that has no NUL unit, and leaves the cursor just after the terminator. */
  lemma StringRoundTrip(st: BufState, s: seq<CodeUnit>)
    requires Writable(st) && Utf8Encode(s).Ok? && 0 !in s
    ensures var st' := PutAll(st, Utf8Encode(s).value + [0]);
      && st'.position == st.position + |Utf8Encode(s).value| + 1
      && ReadString(st', Some(st.position)) == (Ok(s), st'.position)
  {
    var raw := Utf8Encode(s).value;
    EncodeZeroOnlyForNul(s);
    TerminatedBytesScanBack(st, raw);
    DecodeInvertsEncode(s);
    var st' := PutAll(st, raw + [0]);
    assert |st'.bytes| >= st.position + 1;
  }

  // ---------------------------------------------------------------------------
  // The class

  class ByteBuffer {
    var buffer: array<Byte>
    var position: nat

    function State(): BufState
      reads this, buffer
    {
      BufState(buffer[..], position)
    }

    /** `new ByteBuffer(initialSize)`. */
    constructor (initialSize: nat)
      ensures fresh(buffer) && State() == BufState(Zeros(initialSize), 0)
    {
      buffer := new Byte[initialSize](_ => 0);
      position := 0;
    }

    /** `new ByteBuffer(null)`: one mebibyte. */
    constructor Default()
      ensures fresh(buffer) && State() == BufState(Zeros(1024 * 1024), 0)
    {
      buffer := new Byte[1024 * 1024](_ => 0);
      position := 0;
    }

    /** `new ByteBuffer(uint8Array)`: the array itself becomes the buffer. */
    constructor FromArray(arg: array<Byte>)
      ensures buffer == arg && position == 0
    {
      buffer := arg;
      position := 0;
    }

    function Size(): nat
      reads this
    {
      buffer.Length
    }

    /** Double the array, keeping the bytes and zero-filling the new half. */
    method Reallocate()
      modifies this
      ensures fresh(buffer) && position == old(position)
      ensures buffer[..] == old(buffer[..]) + Zeros(old(buffer.Length))
    {
      var newArray := new Byte[buffer.Length * 2](_ => 0);
      forall k | 0 <= k < buffer.Length {
        newArray[k] := buffer[k];
      }
      buffer := newArray;
    }

    /** Keep the first `position` bytes (all of them when the cursor is past the end). */
    method Shrink() returns (r: array<Byte>)
      modifies this
      ensures r == buffer && fresh(buffer) && position == old(position)
      ensures buffer[..] == old(buffer[..if position <= buffer.Length then position else buffer.Length])
    {
      var n := if position <= buffer.Length then position else buffer.Length;
      var newArray := new Byte[n](_ => 0);
      forall k | 0 <= k < n {
        newArray[k] := buffer[k];
      }
      buffer := newArray;
      r := buffer;
    }

    method Put(b: int)
      modifies this, buffer
      ensures buffer == old(buffer) || fresh(buffer)
      ensures State() == PutState(old(State()), b)
    {
      if buffer.Length < position + 1 {
        Reallocate();
      }
      if position < buffer.Length {
        buffer[position] := b % 0x100;
      }
      position := position + 1;
    }

    /** `get(index)`; `None` for the `null` index, which reads at the cursor and advances it. */
    method Get(index: Option<int>) returns (r: Option<Byte>)
      modifies this
      ensures buffer == old(buffer) && State() == BufState(old(buffer[..]), Advanced(old(position), index, 1))
      ensures r == ByteAt(buffer[..], ReadIndex(old(position), index))
    {
      var idx: int := position;
      if index.Some? {
        idx := index.value;
      } else {
        position := position + 1;
      }
      if buffer.Length < idx + 1 {
        return Some(0);
      }
      if idx < 0 {
        return None;
      }
      return Some(buffer[idx]);
    }

    method PutShort(num: int) returns (r: Result<(), BufferError>)
      modifies this, buffer
      ensures buffer == old(buffer) || fresh(buffer)
      ensures num > 0xFFFF ==> r == Err(OverShortValue) && State() == old(State())
      ensures num <= 0xFFFF ==> r == Ok(()) && State() == PutAll(old(State()), ShortBytes(num))
    {
      if num > 0xFFFF {
        return Err(OverShortValue);
      }
      var lower := num % 0x100;
      var upper := (num / 0x100) % 0x100;
      ghost var st0 := State();
      Put(lower);
      PutAllSnoc(st0, [], lower);
      Put(upper);
      PutAllSnoc(st0, [lower], upper);
      r := Ok(());
    }

    method GetShort(index: Option<int>) returns (r: Result<int, BufferError>)
      modifies this
      ensures buffer == old(buffer) && buffer[..] == old(buffer[..])
      ensures r == ShortAt(buffer[..], ReadIndex(old(position), index))
      ensures position == Advanced(old(position), index, 2)
    {
      var idx: int := position;
      if index.Some? {
        idx := index.value;
      } else {
        position := position + 2;
      }
      if buffer.Length < idx + 2 {
        return Ok(0);
      }
      if idx < 0 {
        return Err(UndefinedByte);
      }
      var lower: int := buffer[idx];
      var upper: int := buffer[idx + 1];
      var value := upper * 0x100 + lower;
      if value >= 0x8000 {
        value := value - 0x1_0000;
      }
      return Ok(value);
    }

    method PutInt(num: int) returns (r: Result<(), BufferError>)
      modifies this, buffer
      ensures buffer == old(buffer) || fresh(buffer)
      ensures num > 0xFFFF_FFFF ==> r == Err(OverIntegerValue) && State() == old(State())
      ensures num <= 0xFFFF_FFFF ==> r == Ok(()) && State() == PutAll(old(State()), IntBytes(num))
    {
      if num > 0xFFFF_FFFF {
        return Err(OverIntegerValue);
      }
      var bs := IntBytes(num);
      ghost var st0 := State();
      ghost var done: seq<int> := [];
      assert State() == PutAll(st0, done);
      Put(bs[0]);
      PutAllSnoc(st0, done, bs[0]);
      done := done + [bs[0]];
      assert State() == PutAll(st0, done);
      Put(bs[1]);
      PutAllSnoc(st0, done, bs[1]);
      done := done + [bs[1]];
      assert State() == PutAll(st0, done);
      Put(bs[2]);
      PutAllSnoc(st0, done, bs[2]);
      done := done + [bs[2]];
      assert State() == PutAll(st0, done);
      Put(bs[3]);
      PutAllSnoc(st0, done, bs[3]);
      done := done + [bs[3]];
      assert done == bs;
      r := Ok(());
    }

    method GetInt(index: Option<int>) returns (r: Result<int, BufferError>)
      modifies this
      ensures buffer == old(buffer) && buffer[..] == old(buffer[..])
      ensures r == IntAt(buffer[..], ReadIndex(old(position), index))
      ensures position == Advanced(old(position), index, 4)
    {
      var idx: int := position;
      if index.Some? {
        idx := index.value;
      } else {
        position := position + 4;
      }
      if buffer.Length < idx + 4 {
        return Ok(0);
      }
      if idx < 0 {
        return Err(UndefinedByte);
      }
      var b0: int, b1: int, b2: int, b3: int := buffer[idx], buffer[idx + 1], buffer[idx + 2], buffer[idx + 3];
      var high := if b3 >= 0x80 then b3 * 0x100_0000 - 0x1_0000_0000 else b3 * 0x100_0000;
      return Ok(high + b2 * 0x1_0000 + b1 * 0x100 + b0);
    }

    /** getInt at the cursor, then advance it by four; a non-negative cursor never throws. */
    method ReadInt() returns (r: int)
      modifies this
      ensures buffer == old(buffer) && buffer[..] == old(buffer[..])
      ensures IntAt(buffer[..], old(position)) == Ok(r)
      ensures position == old(position) + 4
    {
      var pos := position;
      position := position + 4;
      var got := GetInt(Some(pos));
      r := got.value;
    }

    /** The UTF-8 bytes of the string, then a 0 terminator; an encoding error throws before
        anything is written. */
    method PutString(str: seq<CodeUnit>) returns (r: Result<(), BufferError>)
      modifies this, buffer
      ensures buffer == old(buffer) || fresh(buffer)
      ensures Utf8Encode(str).Err? ==> r == Err(EncodeFailed(Utf8Encode(str).error)) && State() == old(State())
      ensures Utf8Encode(str).Ok? ==> r == Ok(()) && State() == PutAll(old(State()), Utf8Encode(str).value + [0])
    {
      var bytes := StringToUtf8Bytes(str);
      if bytes.Err? {
        return Err(EncodeFailed(bytes.error));
      }
      var k := 0;
      while k < |bytes.value|
        invariant 0 <= k <= |bytes.value|
        invariant buffer == old(buffer) || fresh(buffer)
        invariant State() == PutAll(old(State()), bytes.value[..k])
      {
        Put(bytes.value[k]);
        assert bytes.value[..k + 1] == bytes.value[..k] + [bytes.value[k]];
        k := k + 1;
      }
      Put(0);
      assert bytes.value[..k] == bytes.value;
      ghost var all: seq<int> := bytes.value + [0];
      assert all[..|all| - 1] == bytes.value;
      r := Ok(());
    }

    /** Collect bytes from the index (the cursor for `None`) up to a 0 byte or the end, move
        the cursor after them and decode them. */
    method GetString(index: Option<int>) returns (r: Result<seq<CodeUnit>, BufferError>)
      modifies this
      ensures buffer == old(buffer) && buffer[..] == old(buffer[..])
      ensures (r, position) == ReadString(old(State()), index)
    {
      var collected: seq<Byte> := [];
      var idx: int := position;
      if index.Some? {
        idx := index.value;
      }
      ghost var start := idx;
      // the guard reads `index + 1`; `null + 1` is 1
      var guard := if index.Some? then index.value + 1 else 1;
      ghost var bytes := buffer[..];
      if buffer.Length >= guard {
        match Scan(bytes, start)
        case Ok((rest, end)) => assert [] + rest == rest;
        case Err(_) =>
      }
      while true
        invariant buffer == old(buffer) && buffer[..] == bytes && position == old(position)
        invariant buffer.Length < guard ==> idx == start && collected == []
        invariant buffer.Length >= guard ==> Scan(bytes, start) == Prefixed(collected, Scan(bytes, idx))
        decreases buffer.Length + 1 - idx
      {
        if buffer.Length < guard {
          break;
        }
        var tempChar := Get(Some(idx));
        if tempChar.None? {
          assert Scan(bytes, idx) == Err(UndefinedByte);
          return Err(UndefinedByte);
        }
        var ch := tempChar.value;
        idx := idx + 1;
        if ch == 0 {
          assert Scan(bytes, idx - 1) == Ok(([], idx));
          assert collected + [] == collected;
          break;
        } else {
          PrefixedTwice(collected, [ch], Scan(bytes, idx));
          collected := collected + [ch];
        }
      }
      position := idx;
      var decoded := Utf8BytesToString(collected);
      match decoded
      case Ok(s) => r := Ok(s);
      case Err(e) => r := Err(DecodeFailed(e));
    }
  }
}

/** Base 128 varints: the size formulas, the writer that fills a window of a buffer, and
  * the readers that or-and-shift seven bits at a time.
  */
module Varint {
  import opened Words
  import opened WireResult

  // ----- size formulas -----

  /** Go's `bits.Len64`: the number of bits needed to write `x`. */
  function BitLen(x: nat): nat {
    if x == 0 then 0 else 1 + BitLen(x / 2)
  }

  function Sov(x: Word): nat {
    (BitLen(Or(x, 1)) + 6) / 7
  }

  /** `(x << 1) ^ uint64(int64(x) >> 63)`: the arithmetic shift yields 0 or -1. */
  function ZigZag(x: Word): nat {
    Xor(Shl(x, 1), ToWord(ToInt64(x) / TWO_63))
  }

  lemma {:induction false} BitLenLeast(x: nat, k: nat)
    ensures BitLen(x) <= k <==> x < Pow2(k)
  {
    if x == 0 || k == 0 {
    } else {
      BitLenLeast(x / 2, k - 1);
    }
  }

  /** The bit-length formula is the least byte count: n bytes suffice exactly when x < 128^n. */
  lemma SovLeast(x: Word, n: nat)
    requires n >= 1
    ensures Sov(x) <= n <==> x < Pow2(7 * n)
  {
    OrOne(x);
    BitLenLeast(Or(x, 1), 7 * n);
    assert Pow2(7 * n) == 2 * Pow2(7 * n - 1);
  }

  lemma SovRange(x: Word)
    ensures 1 <= Sov(x) <= 10
  {
    OrOne(x);
    SovLeast(x, 10);
    Pow2Monotone(64, 70);
    WordPowers();
  }

  lemma SovMonotone(x: Word, y: Word)
    requires x <= y
    ensures Sov(x) <= Sov(y)
  {
    SovRange(y);
    SovLeast(y, Sov(y));
    SovLeast(x, Sov(y));
  }

  /** The zigzag map sends 0, -1, 1, -2, ... to 0, 1, 2, 3, ... */
  lemma ZigZagValue(x: Word)
    ensures ZigZag(x) == if ToInt64(x) >= 0 then 2 * ToInt64(x) else -2 * ToInt64(x) - 1
  {
    hide Xor, Pow2;
    WordPowers();
    var doubled := Shl(x, 1);
    if ToInt64(x) >= 0 {
      assert ToInt64(x) / TWO_63 == 0;
      XorZero(doubled);
    } else {
      assert ToInt64(x) / TWO_63 == -1;
      XorOnes(doubled, 64);
    }
  }

  function Soz(x: Word): nat {
    ZigZagValue(x);
    Sov(ZigZag(x))
  }

  function UnZigZag(z: Word): Word {
    if z % 2 == 0 then z / 2 else ToWord(-(z / 2) - 1)
  }

  /** The zigzag map is a bijection on 64-bit words: it is one to one ... */
  lemma ZigZagInjective(x: Word)
    ensures 0 <= ZigZag(x) < TWO_64
    ensures UnZigZag(ZigZag(x)) == x
  {
    hide ZigZag;
    ZigZagValue(x);
  }

  /** ... and onto. */
  lemma ZigZagSurjective(z: Word)
    ensures ZigZag(UnZigZag(z)) == z
  {
    var x := UnZigZag(z);
    assert ToInt64(x) == if z % 2 == 0 then z / 2 else -(z / 2) - 1;
    ZigZagValue(x);
  }

  /** `sozAuth` is the least n for which the signed value fits in 7n bits. */
  lemma SozLeast(x: Word, n: nat)
    requires n >= 1
    ensures var bound: int := Pow2(7 * n - 1); Soz(x) <= n <==> -bound <= ToInt64(x) < bound
  {
    hide ZigZag, Sov;
    ZigZagValue(x);
    SovLeast(ZigZag(x), n);
    assert Pow2(7 * n) == 2 * Pow2(7 * n - 1);
  }

  // ----- the encoding -----

  /** The shortest varint of `v`. */
  function Encoding(v: nat): (s: seq<Byte>)
    ensures |s| >= 1
  {
    if v < 0x80 then [v] else [v % 0x80 + 0x80] + Encoding(v / 0x80)
  }

  /** A complete varint: at most ten bytes, of which exactly the last one is below 0x80. */
  predicate IsVarint(s: seq<Byte>) {
    && 1 <= |s| <= 10
    && s[|s| - 1] < 0x80
    && forall i :: 0 <= i < |s| - 1 ==> s[i] >= 0x80
  }

  /** The base-128 sum of the seven-bit groups, least significant first. */
  function Groups(s: seq<Byte>): nat {
    if s == [] then 0 else s[0] % 0x80 + 0x80 * Groups(s[1..])
  }

  function Value(s: seq<Byte>): Word {
    ToWord(Groups(s))
  }

  lemma {:induction false} GroupsBound(s: seq<Byte>)
    ensures Groups(s) < Pow2(7 * |s|)
  {
    if s == [] {
    } else {
      GroupsBound(s[1..]);
      SevenMore(|s| - 1);
    }
  }

  lemma SevenMore(n: nat)
    ensures Pow2(7 * (n + 1)) == 0x80 * Pow2(7 * n)
  {
    Pow2Add(7, 7 * n);
    SmallPowers();
  }

  lemma {:induction false} GroupsAppend(s: seq<Byte>, b: Byte)
    ensures Groups(s + [b]) == Groups(s) + b % 0x80 * Pow2(7 * |s|)
  {
    if s == [] {
    } else {
      assert (s + [b])[1..] == s[1..] + [b];
      GroupsAppend(s[1..], b);
      SevenMore(|s| - 1);
      var g, p := b % 0x80, Pow2(7 * (|s| - 1));
      assert 0x80 * (g * p) == g * (0x80 * p);
    }
  }

  lemma {:induction false} EncodingLength(v: nat, n: nat)
    requires n >= 1
    ensures |Encoding(v)| <= n <==> v < Pow2(7 * n)
  {
    SevenMore(n - 1);
    if v < 0x80 || n == 1 {
      SmallPowers();
    } else {
      EncodingLength(v / 0x80, n - 1);
    }
  }

  lemma {:induction false} EncodingGroups(v: nat)
    ensures Groups(Encoding(v)) == v
  {
    if v < 0x80 {
      assert Encoding(v) == [v];
    } else {
      EncodingGroups(v / 0x80);
      assert Encoding(v)[1..] == Encoding(v / 0x80);
    }
  }

  lemma {:induction false} EncodingShape(v: nat)
    ensures var s := Encoding(v);
            s[|s| - 1] < 0x80 && forall i :: 0 <= i < |s| - 1 ==> s[i] >= 0x80
  {
    if v < 0x80 {
    } else {
      EncodingShape(v / 0x80);
    }
  }

  /** The write loop and the bit-length formula agree on the byte count. */
  lemma EncodingIsVarint(v: Word)
    ensures |Encoding(v)| == Sov(v)
    ensures IsVarint(Encoding(v)) && Value(Encoding(v)) == v
  {
    SovRange(v);
    EncodingGroups(v);
    EncodingShape(v);
    EncodingLength(v, Sov(v));
    SovLeast(v, Sov(v));
    EncodingLength(v, |Encoding(v)|);
    SovLeast(v, |Encoding(v)|);
  }

  /** No accepted encoding of `v` is shorter than the writer's. */
  lemma WriterIsShortest(s: seq<Byte>)
    requires IsVarint(s)
    ensures |s| >= Sov(Value(s)) == |Encoding(Value(s))|
  {
    GroupsBound(s);
    SovLeast(Value(s), |s|);
    EncodingIsVarint(Value(s));
  }

  lemma WriteGroup(w: Word)
    requires w >= 0x80
    ensures 0 <= Or(And(w, 0x7F), 0x80) < 0x100
    ensures Encoding(w)[0] == Or(And(w, 0x7F), 0x80) && Encoding(w)[1..] == Encoding(Shr(w, 7))
  {
    hide Or, And, Pow2;
    CodecMasks(w);
    SmallPowers();
    OrDisjoint(w % 0x80, 1, 7);
  }

  lemma WindowSize(v: Word)
    ensures |Encoding(v)| == Sov(v)
  {
    EncodingIsVarint(v);
  }

  lemma WindowFilled(after: seq<Byte>, before: seq<Byte>, base: nat, offset: nat, bytes: seq<Byte>)
    requires base <= offset <= |before| == |after| && |bytes| == offset - base
    requires forall i :: base <= i < offset ==> after[i] == bytes[i - base]
    requires forall i :: 0 <= i < base || offset <= i < |after| ==> after[i] == before[i]
    ensures after == before[..base] + bytes + before[offset..]
  {
  }

  /** Writes the varint of `v` so that it ends just before `offset`, and returns its start.
    * Nothing outside the window of `Sov(v)` bytes changes.
    */
  method EncodeVarint(buf: array<Byte>, offset: nat, v: Word) returns (base: nat)
    requires Sov(v) <= offset <= buf.Length
    modifies buf
    ensures base == offset - Sov(v)
    ensures buf[..] == old(buf[..])[..base] + Encoding(v) + old(buf[..])[offset..]
  {
    WindowSize(v);
    ghost var bytes, before := Encoding(v), buf[..];
    base := offset - Sov(v);
    var pos, w: Word := base, v;
    while w >= 0x80
      invariant base <= pos < offset
      invariant Encoding(w) == bytes[pos - base..]
      invariant forall i :: base <= i < pos ==> buf[i] == bytes[i - base]
      invariant forall i :: 0 <= i < base || offset <= i < buf.Length ==> buf[i] == before[i]
    {
      WriteGroup(w);
      buf[pos] := Or(And(w, 0x7F), 0x80);
      w := Shr(w, 7);
      pos := pos + 1;
    }
    buf[pos] := w;
    assert Encoding(w) == [w];
    WindowFilled(buf[..], before, base, offset, bytes);
  }

  // ----- bits that a varint of ten bytes can lose -----

  /** A varint whose tenth byte has a bit above the lowest: that bit is shifted out. */
  predicate Overlong(s: seq<Byte>) {
    |s| == 10 && s[9] > 1
  }

  /** The value is the whole base-128 sum exactly when the varint is not overlong. */
  lemma ExactIffNotOverlong(s: seq<Byte>)
    requires IsVarint(s)
    ensures Groups(s) == Value(s) <==> !Overlong(s)
  {
    hide Groups, Pow2;
    GroupsBound(s);
    WordPowers();
    if |s| < 10 {
      Pow2Monotone(7 * |s|, 63);
    } else {
      var init, last := s[..9], s[9];
      assert s == init + [last];
      GroupsAppend(init, last);
      GroupsBound(init);
    }
  }

  // ----- reading -----

  /** The number of leading bytes with the continuation bit set. */
  function Continuations(s: seq<Byte>): (k: nat)
    ensures k <= |s|
    ensures forall i :: 0 <= i < k ==> s[i] >= 0x80
    ensures k < |s| ==> s[k] < 0x80
  {
    if s == [] || s[0] < 0x80 then 0 else 1 + Continuations(s[1..])
  }

  /** The size of the varint at the front of `s`: the tenth byte is the last one looked at,
    * and running over that limit is reported before running out of input.
    */
  function VarintSize(s: seq<Byte>): (r: Result<nat>)
    ensures r.Ok? ==> 1 <= r.value <= |s| && r.value <= 10
  {
    var k := Continuations(s);
    if k >= 10 then Err(IntOverflow)
    else if k == |s| then Err(UnexpectedEOF)
    else Ok(k + 1)
  }

  /** The three outcomes of a read: a varint is a prefix of the input, or ten bytes all ask
    * for more, or the input ends first.
    */
  lemma VarintSizeOutcomes(s: seq<Byte>)
    ensures VarintSize(s).Ok? ==> IsVarint(s[..VarintSize(s).value])
    ensures VarintSize(s).Ok? <==> exists n :: 1 <= n <= |s| && IsVarint(s[..n])
    ensures VarintSize(s) == Err(IntOverflow) <==> |s| >= 10 && forall i :: 0 <= i < 10 ==> s[i] >= 0x80
    ensures VarintSize(s) == Err(UnexpectedEOF) <==> |s| < 10 && forall i :: 0 <= i < |s| ==> s[i] >= 0x80
  {
    if VarintSize(s).Ok? {
      assert IsVarint(s[..VarintSize(s).value]);
    } else if n :| 1 <= n <= |s| && IsVarint(s[..n]) {
      VarintPrefixUnique(s, n);
    }
  }

  /** What a read at `start` yields: the value and the index of the next byte. */
  datatype Uvarint = Uvarint(value: Word, next: nat)

  function UvarintAt(d: seq<Byte>, start: nat): (r: Result<Uvarint>)
    requires start <= |d|
    ensures r.Ok? ==> start < r.value.next <= |d| && r.value.next <= start + 10
  {
    var n :- VarintSize(d[start..]);
    Ok(Uvarint(Value(d[start..start + n]), start + n))
  }

  /** A sequence has at most one varint as a prefix. */
  lemma VarintPrefixUnique(s: seq<Byte>, n: nat)
    requires n <= |s| && IsVarint(s[..n])
    ensures VarintSize(s) == Ok(n)
  {
    assert s[n - 1] == s[..n][n - 1];
    forall i | 0 <= i < n - 1
      ensures s[i] >= 0x80
    {
      assert s[i] == s[..n][i];
    }
  }

  lemma UvarintAtSlice(d: seq<Byte>, start: nat, end: nat)
    requires start <= end <= |d| && IsVarint(d[start..end])
    ensures UvarintAt(d, start) == Ok(Uvarint(Value(d[start..end]), end))
  {
    assert d[start..][..end - start] == d[start..end];
    VarintPrefixUnique(d[start..], end - start);
  }

  /** Reading back what the writer wrote yields the value and consumes exactly its bytes. */
  lemma RoundTrip(prefix: seq<Byte>, v: Word, rest: seq<Byte>)
    ensures UvarintAt(prefix + Encoding(v) + rest, |prefix|)
         == Ok(Uvarint(v, |prefix| + Sov(v)))
  {
    var d, end := prefix + Encoding(v) + rest, |prefix| + |Encoding(v)|;
    assert d[|prefix|..end] == Encoding(v);
    EncodingIsVarint(v);
    UvarintAtSlice(d, |prefix|, end);
  }

  /** One turn of the reader: or-ing in the next group extends the sum modulo 2^64. The tenth
    * group keeps only its lowest bit.
    */
  lemma AccumulateGroup(s: seq<Byte>, b: Byte)
    requires |s| <= 9
    ensures Or(Value(s), Shl(And(b, 0x7F), 7 * |s|)) == Value(s + [b])
  {
    hide Or, And, Pow2, Groups, Shl;
    CodecMasks(b);
    GroupsBound(s);
    GroupsAppend(s, b);
    WordPowers();
    Pow2Monotone(7 * |s|, 63);
    if |s| < 9 {
      SevenMore(|s|);
      Pow2Monotone(7 * (|s| + 1), 63);
      OrGroupBelow(Groups(s), b % 0x80, 7 * |s|);
    } else {
      OrLastGroup(Groups(s), b % 0x80);
    }
  }

  lemma OrGroupBelow(x: nat, g: nat, k: nat)
    requires x < Pow2(k) && g < 0x80 && 0x80 * Pow2(k) <= TWO_63
    ensures Or(ToWord(x), Shl(g, k)) == ToWord(x + g * Pow2(k)) == x + g * Pow2(k)
  {
    var p := Pow2(k);
    var t := g * p;
    MulRange(g, 0x7F, p);
    OrDisjoint(x, g, k);
    SmallWord(x);
    SmallWord(t);
    SmallWord(x + t);
  }

  lemma MulRange(g: nat, h: nat, p: nat)
    requires g <= h
    ensures 0 <= g * p <= h * p
  {
    assert h * p == g * p + (h - g) * p;
  }

  lemma DropBits(x: int, q: int, w: Word)
    requires x == q * TWO_64 + w
    ensures ToWord(x) == w
  {
  }

  lemma SmallWord(x: int)
    requires 0 <= x < TWO_64
    ensures ToWord(x) == x
  {
  }

  lemma OrLastGroup(x: nat, g: nat)
    requires x < Pow2(63) && g < 0x80
    ensures Or(ToWord(x), Shl(g, 63)) == ToWord(x + g * Pow2(63))
  {
    WordPowers();
    var bit := g % 2;
    DropBits(g * TWO_63, g / 2, bit * TWO_63);
    OrDisjoint(x, bit, 63);
    SmallWord(x);
    DropBits(x + g * TWO_63, g / 2, x + bit * TWO_63);
  }

  /** Where the reader loops stop, and with what. */
  lemma ReadEnds(d: Buffer, start: nat, end: nat)
    requires start < end <= |d| && end <= start + 10 && d[end - 1] < 0x80
    requires forall i :: start <= i < end - 1 ==> d[i] >= 0x80
    ensures UvarintAt(d, start) == Ok(Uvarint(Value(d[start..end]), end))
  {
    hide Value, UvarintAt;
    assert IsVarint(d[start..end]);
    UvarintAtSlice(d, start, end);
  }

  lemma ReadFails(d: Buffer, start: nat, end: nat)
    requires start <= end <= |d|
    requires forall i :: start <= i < end ==> d[i] >= 0x80
    ensures end >= start + 10 ==> UvarintAt(d, start) == Err(IntOverflow)
    ensures end == |d| && end < start + 10 ==> UvarintAt(d, start) == Err(UnexpectedEOF)
  {
    hide Value;
    var rest := d[start..];
    assert forall i :: 0 <= i < end - start ==> rest[i] == d[start + i];
    assert Continuations(rest) >= end - start;
  }

  lemma NothingRead(d: Buffer, start: nat)
    requires start <= |d|
    ensures Value(d[start..start]) == 0 && ToInt64(Groups(d[start..start])) == 0
  {
  }

  /** The reader of the tag loops, and of the message parser's own tag. */
  method ReadUvarint(d: Buffer, start: nat) returns (r: Result<Uvarint>)
    requires start <= |d|
    ensures r == UvarintAt(d, start)
  {
    hide UvarintAt, Value, Or, And, Shl;
    NothingRead(d, start);
    var iNdEx, shift := start, 0;
    var wire: Word := 0;
    while true
      invariant start <= iNdEx <= |d| && shift == 7 * (iNdEx - start) <= 70
      invariant forall i :: start <= i < iNdEx ==> d[i] >= 0x80
      invariant wire == Value(d[start..iNdEx])
      decreases 70 - shift
    {
      ReadFails(d, start, iNdEx);
      if shift >= 64 {
        return Err(IntOverflow);
      }
      if iNdEx >= |d| {
        return Err(UnexpectedEOF);
      }
      var b := d[iNdEx];
      AccumulateGroup(d[start..iNdEx], b);
      assert d[start..iNdEx + 1] == d[start..iNdEx] + [b];
      iNdEx := iNdEx + 1;
      CodecMasks(b);
      wire := Or(wire, Shl(And(b, 0x7F), shift));
      if b < 0x80 {
        break;
      }
      shift := shift + 7;
    }
    ReadEnds(d, start, iNdEx);
    return Ok(Uvarint(wire, iNdEx));
  }

  /** The reader of a varint field's payload: it looks for the end and keeps no value. */
  method PassVarint(d: Buffer, start: nat) returns (r: Result<nat>)
    requires start <= |d|
    ensures r == PassAt(d, start)
  {
    hide UvarintAt;
    var iNdEx, shift := start, 0;
    while true
      invariant start <= iNdEx <= |d| && shift == 7 * (iNdEx - start) <= 70
      invariant forall i :: start <= i < iNdEx ==> d[i] >= 0x80
      decreases 70 - shift
    {
      ReadFails(d, start, iNdEx);
      if shift >= 64 {
        return Err(IntOverflow);
      }
      if iNdEx >= |d| {
        return Err(UnexpectedEOF);
      }
      iNdEx := iNdEx + 1;
      if d[iNdEx - 1] < 0x80 {
        break;
      }
      shift := shift + 7;
    }
    ReadEnds(d, start, iNdEx);
    return Ok(iNdEx);
  }

  function PassAt(d: seq<Byte>, start: nat): (r: Result<nat>)
    requires start <= |d|
  {
    var u :- UvarintAt(d, start);
    Ok(u.next)
  }

  /** The signed accumulation of a length keeps the same bit pattern as the unsigned one. */
  lemma AccumulateSigned(s: seq<Byte>, b: Byte)
    requires |s| <= 9
    ensures OrInt64(ToInt64(Groups(s)), ShlInt64(And(b, 0x7F), 7 * |s|)) == ToInt64(Groups(s + [b]))
  {
    AccumulateGroup(s, b);
    SameBits(Groups(s));
    SameBits(And(b, 0x7F) * Pow2(7 * |s|));
    SameBits(Groups(s + [b]));
  }

  lemma SameBits(x: int)
    ensures ToWord(ToInt64(x)) == ToWord(x) && ToInt64(ToWord(x)) == ToInt64(x)
  {
  }

  /** A length prefix: a Go `int` built from the same groups, so its top bit is its sign. */
  datatype Length = Length(value: Int64, next: nat)

  method ReadLength(d: Buffer, start: nat) returns (r: Result<Length>)
    requires start <= |d|
    ensures r == LengthAt(d, start)
  {
    hide UvarintAt, Groups, OrInt64, ShlInt64, And, ToInt64;
    NothingRead(d, start);
    var iNdEx, shift := start, 0;
    var length: Int64 := 0;
    while true
      invariant start <= iNdEx <= |d| && shift == 7 * (iNdEx - start) <= 70
      invariant forall i :: start <= i < iNdEx ==> d[i] >= 0x80
      invariant length == ToInt64(Groups(d[start..iNdEx]))
      decreases 70 - shift
    {
      ReadFails(d, start, iNdEx);
      if shift >= 64 {
        return Err(IntOverflow);
      }
      if iNdEx >= |d| {
        return Err(UnexpectedEOF);
      }
      var b := d[iNdEx];
      AccumulateSigned(d[start..iNdEx], b);
      assert d[start..iNdEx + 1] == d[start..iNdEx] + [b];
      iNdEx := iNdEx + 1;
      length := OrInt64(length, ShlInt64(And(b, 0x7F), shift));
      if b < 0x80 {
        break;
      }
      shift := shift + 7;
    }
    ReadEnds(d, start, iNdEx);
    SameBits(Groups(d[start..iNdEx]));
    return Ok(Length(length, iNdEx));
  }

  function LengthAt(d: seq<Byte>, start: nat): Result<Length>
    requires start <= |d|
  {
    var u :- UvarintAt(d, start);
    Ok(Length(ToInt64(u.value), u.next))
  }

  // ----- all readers, by the bytes -----

  /** What stands at `start` decides what each reader answers: after ten continuation bytes all
    * report overflow, when the input ends sooner all report its end, and otherwise all stop
    * behind the same varint, with its value, without a value, and with its value as an `int`.
    */
  lemma ReadersByBytes(d: seq<Byte>, start: nat)
    requires start <= |d|
    ensures var s := d[start..];
            && (|s| >= 10 && (forall i :: 0 <= i < 10 ==> s[i] >= 0x80) ==>
                  && UvarintAt(d, start) == Err(IntOverflow)
                  && PassAt(d, start) == Err(IntOverflow) && LengthAt(d, start) == Err(IntOverflow))
            && (|s| < 10 && (forall i :: 0 <= i < |s| ==> s[i] >= 0x80) ==>
                  && UvarintAt(d, start) == Err(UnexpectedEOF)
                  && PassAt(d, start) == Err(UnexpectedEOF) && LengthAt(d, start) == Err(UnexpectedEOF))
    ensures forall end: nat :: start <= end <= |d| && IsVarint(d[start..end]) ==>
              var v := Value(d[start..end]);
              && UvarintAt(d, start) == Ok(Uvarint(v, end)) && PassAt(d, start) == Ok(end)
              && LengthAt(d, start) == Ok(Length(if v < TWO_63 then v else v - TWO_64, end))
  {
    hide Value, IsVarint;
    VarintSizeOutcomes(d[start..]);
    forall end: nat | start <= end <= |d| && IsVarint(d[start..end])
      ensures var v := Value(d[start..end]);
              && UvarintAt(d, start) == Ok(Uvarint(v, end)) && PassAt(d, start) == Ok(end)
              && LengthAt(d, start) == Ok(Length(if v < TWO_63 then v else v - TWO_64, end))
    {
      UvarintAtSlice(d, start, end);
    }
  }

  /** Input that is cut off inside a varint ends too soon; beyond its end nothing changes. */
  lemma UvarintTruncated(d: seq<Byte>, k: nat, start: nat)
    requires start <= k <= |d| && UvarintAt(d, start).Ok?
    ensures UvarintAt(d[..k], start)
         == if UvarintAt(d, start).value.next <= k then UvarintAt(d, start) else Err(UnexpectedEOF)
  {
    hide Value;
    var end := UvarintAt(d, start).value.next;
    var s, c := d[start..], d[..k];
    VarintSizeOutcomes(s);
    assert IsVarint(s[..end - start]) && s[..end - start] == d[start..end];
    if end <= k {
      assert c[start..end] == d[start..end];
      UvarintAtSlice(c, start, end);
    } else {
      assert forall i :: 0 <= i < k - start ==> c[start..][i] == d[start..end][i];
      VarintSizeOutcomes(c[start..]);
    }
  }
}

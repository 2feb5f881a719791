/** `SampleAuthExtension.Unmarshal`: a message without fields of its own, so every field is
  * vetted by its tag and skipped.
  */
module MessageParser {
  import opened Words
  import opened Slices
  import opened WireResult
  import opened Varint
  import opened WireFormat
  import opened FieldSkipper

  /** `int32(wire >> 3)` */
  function FieldNumber(wire: Word): Int32 {
    ToInt32(wire / 8)
  }

  /** The parser's loop from index `i`; the value is the index on leaving it. */
  function Parse(a: Arith, d: Buffer, i: nat): Result<int>
    requires i <= |d|
    decreases |d| - i
  {
    if i >= |d| then Ok(i)
    else
      var tag :- UvarintAt(d, i);
      if tag.value % 8 == 4 then Err(EndGroupForNonGroup)
      else if FieldNumber(tag.value) <= 0 then Err(IllegalTag(FieldNumber(tag.value), tag.value))
      else
        RunForward(a, d[i..], 0, 0);
        var skippy :- Run(a, d[i..], 0, 0);
        var next := Index(a, i + skippy);
        if skippy < 0 || next < 0 then Err(InvalidLength)
        else if next > |d| then Err(UnexpectedEOF)
        else
          IndexForward(a, i, skippy);
          Parse(a, d, next)
  }

  function Unmarshal(a: Arith, d: Buffer): Result<()> {
    var i :- Parse(a, d, 0);
    if i > |d| then Err(UnexpectedEOF) else Ok(())
  }

  method UnmarshalAuth(d: Buffer) returns (r: Result<()>)
    ensures r == Unmarshal(Wrapping, d)
  {
    hide UvarintAt, ToInt64, Run, And;
    var l := |d|;
    var iNdEx: Int64 := 0;
    while iNdEx < l
      invariant 0 <= iNdEx <= l
      invariant Parse(Wrapping, d, iNdEx) == Parse(Wrapping, d, 0)
    {
      var preIndex := iNdEx;
      var tag :- ReadUvarint(d, iNdEx);
      iNdEx := tag.next;
      CodecMasks(tag.value);
      DropTagBits(tag.value);
      var fieldNum := ToInt32(Shr(tag.value, 3));
      var wireType := And(tag.value, 0x7);
      if wireType == 4 {
        return Err(EndGroupForNonGroup);
      }
      if fieldNum <= 0 {
        return Err(IllegalTag(fieldNum, tag.value));
      }
      iNdEx := preIndex;
      RunForward(Wrapping, d[iNdEx..], 0, 0);
      var skippy :- SkipAuth(d[iNdEx..]);
      IndexForward(Wrapping, iNdEx, skippy);
      if skippy < 0 || ToInt64(iNdEx + skippy) < 0 {
        return Err(InvalidLength);
      }
      if ToInt64(iNdEx + skippy) > l {
        return Err(UnexpectedEOF);
      }
      iNdEx := ToInt64(iNdEx + skippy);
    }
    if iNdEx > l {
      return Err(UnexpectedEOF);
    }
    return Ok(());
  }

  lemma DropTagBits(w: Word)
    ensures Shr(w, 3) == w / 8
  {
    SmallPowers();
  }

  // ----- what the parser accepts -----

  /** Bits 3 to 34 of a tag are a number from 1 to 2^31 - 1. */
  predicate PositiveNumber(wire: Word) {
    1 <= wire / 8 % TWO_32 <= 0x7FFF_FFFF
  }

  predicate LegalNumber(f: Field) {
    PositiveNumber(Value(f.tag))
  }

  /** Truncation to `int32` keeps a number's low 32 bits and makes those from 2^31 on negative. */
  lemma NumberSign(wire: Word)
    ensures FieldNumber(wire) > 0 <==> PositiveNumber(wire)
    ensures var n := wire / 8 % TWO_32;
            FieldNumber(wire) == if n <= 0x7FFF_FFFF then n else n - TWO_32
  {
  }

  predicate AllLegal(fs: seq<Field>) {
    fs == [] || (LegalNumber(fs[0]) && AllLegal(fs[1..]))
  }

  ghost predicate IsMessage(a: Arith, s: seq<Byte>) {
    exists fs :: AllValidIn(a, fs) && AllLegal(fs) && FlattenAll(fs) == s
  }

  /** One valid field at `i`: the parser goes on behind it, or refuses its number. */
  lemma ParseField(a: Arith, d: Buffer, i: nat, f: Field)
    requires ValidIn(a, f)
    requires i + |Flatten(f)| <= |d| && d[i..i + |Flatten(f)|] == Flatten(f)
    ensures Parse(a, d, i) == if LegalNumber(f) then Parse(a, d, i + |Flatten(f)|)
                              else Err(IllegalTag(FieldNumber(Value(f.tag)), Value(f.tag)))
  {
    hide UvarintAt, IsVarint, Value, Flatten, Run, Index, FieldNumber, PositiveNumber;
    var n := |Flatten(f)|;
    TagOfField(d, i, f);
    NumberSign(Value(f.tag));
    assert d[i..][0..n] == d[i..i + n];
    RunField(a, d[i..], 0, f, 0);
    assert Resume(a, d[i..], n, 0) == Ok(n);
    NoWrap(a, i + n);
  }

  lemma TagOfField(d: Buffer, i: nat, f: Field)
    requires Valid(f)
    requires i + |Flatten(f)| <= |d| && d[i..i + |Flatten(f)|] == Flatten(f)
    ensures UvarintAt(d, i) == Ok(Uvarint(Value(f.tag), i + |f.tag|))
    ensures Value(f.tag) % 8 != 4 && 0 < |f.tag| <= |Flatten(f)|
  {
    hide IsVarint, Value, UvarintAt;
    assert IsVarint(f.tag);
    TagFirst(f, []);
    assert Flatten(f) + [] == Flatten(f) == f.tag + Payload(f);
    TwoParts(d, i, f.tag, Payload(f));
    UvarintAtSlice(d, i, i + |f.tag|);
    VarintAt(d, i);
  }

  lemma {:induction false} ParseFields(a: Arith, d: Buffer, i: nat, fs: seq<Field>)
    requires AllValidIn(a, fs) && AllLegal(fs)
    requires i + |FlattenAll(fs)| <= |d| && d[i..i + |FlattenAll(fs)|] == FlattenAll(fs)
    ensures Parse(a, d, i) == Parse(a, d, i + |FlattenAll(fs)|)
    decreases fs
  {
    hide Flatten, Valid, SizesExact, Parse, LegalNumber;
    if fs == [] {
    } else {
      TwoParts(d, i, Flatten(fs[0]), FlattenAll(fs[1..]));
      ParseField(a, d, i, fs[0]);
      ParseFields(a, d, i + |Flatten(fs[0])|, fs[1..]);
    }
  }

  lemma {:induction false} FieldsFound(a: Arith, d: Buffer, i: nat) returns (fs: seq<Field>)
    requires i <= |d| && Parse(a, d, i).Ok?
    ensures AllValidIn(a, fs) && AllLegal(fs) && FlattenAll(fs) == d[i..]
    ensures Parse(a, d, i) == Ok(|d|)
    decreases |d| - i
  {
    hide UvarintAt, Value, Index, Run, Valid, SizesExact, Flatten, FieldNumber, PositiveNumber;
    if i >= |d| {
      fs := [];
    } else {
      var skippy := Run(a, d[i..], 0, 0).value;
      RunForward(a, d[i..], 0, 0);
      IndexForward(a, i, skippy);
      var f := FieldFound(a, d[i..], 0, skippy);
      assert d[i..][0..skippy] == d[i..i + skippy];
      TagOfField(d, i, f);
      NumberSign(Value(f.tag));
      fs := FieldsFound(a, d, i + skippy);
      PrependField(f, fs, []);
      assert ([f] + fs)[1..] == fs;
      assert d[i..] == d[i..i + skippy] + d[i + skippy..];
      assert FlattenAll([f] + fs) == FlattenAll([f] + fs) + [];
      assert FlattenAll(fs) + [] == FlattenAll(fs);
      fs := [f] + fs;
    }
  }

  /** From any index, in either arithmetic, the parser accepts exactly the concatenations of
    * grammar fields with legal top-level numbers, and stops at the end of the buffer.
    */
  lemma ParseIffMessage(a: Arith, d: Buffer, i: nat)
    requires i <= |d|
    ensures Parse(a, d, i).Ok? <==> IsMessage(a, d[i..])
    ensures Parse(a, d, i).Ok? ==> Parse(a, d, i) == Ok(|d|)
  {
    hide Parse, AllLegal, AllValidIn, FlattenAll;
    if Parse(a, d, i).Ok? {
      var fs := FieldsFound(a, d, i);
    }
    if fs :| AllValidIn(a, fs) && AllLegal(fs) && FlattenAll(fs) == d[i..] {
      ParseFields(a, d, i, fs);
      ParseAtEnd(a, d);
    }
  }

  lemma ParseAtEnd(a: Arith, d: Buffer)
    ensures Parse(a, d, |d|) == Ok(|d|)
  {
  }

  lemma UnmarshalIffMessage(a: Arith, d: Buffer)
    ensures Unmarshal(a, d).Ok? <==> IsMessage(a, d)
  {
    hide Parse, IsMessage;
    ParseIffMessage(a, d, 0);
    assert d[0..] == d;
  }

  /** Wrap-around never changes the verdict: every sum that overflows and every length with
    * its top bit set is refused in Go's arithmetic, and lies beyond the buffer without it.
    */
  lemma WrapKeepsVerdict(d: Buffer)
    ensures Unmarshal(Wrapping, d).Ok? <==> Unmarshal(Unbounded, d).Ok?
  {
    hide Unmarshal, AllValid, AllLegal, FlattenAll;
    UnmarshalIffMessage(Wrapping, d);
    UnmarshalIffMessage(Unbounded, d);
    forall fs
      ensures AllValidIn(Wrapping, fs) <==> AllValidIn(Unbounded, fs)
    {
    }
  }

  /** Nor does it change an error, but for one: where the code finds an invalid length, parsing
    * without overflow runs out of input. This holds from every index.
    */
  lemma {:induction false} WrapKeepsOutcome(d: Buffer, i: nat)
    requires i <= |d|
    ensures var w, u := Parse(Wrapping, d, i), Parse(Unbounded, d, i);
            w == u || (w == Err(InvalidLength) && u == Err(UnexpectedEOF))
    decreases |d| - i
  {
    hide UvarintAt, FieldNumber, Run, Index;
    if i < |d| {
      var s := d[i..];
      var w, u := Run(Wrapping, s, 0, 0), Run(Unbounded, s, 0, 0);
      RunWraps(s, 0, 0);
      RunForward(Wrapping, s, 0, 0);
      RunForward(Unbounded, s, 0, 0);
      if u.Ok? {
        UnboundedIndex(i + u.value);
      }
      if w.Ok? {
        IndexForward(Wrapping, i, w.value);
        var next := i + w.value;
        if next <= |d| {
          NoWrap(Wrapping, next);
          WrapKeepsOutcome(d, next);
        }
      }
    }
  }

  /** After an accepted message, what follows is judged on its own. */
  lemma ConcatenationLaw(a: Buffer, b: Buffer)
    requires |a + b| < TWO_63
    requires Unmarshal(Wrapping, a).Ok?
    ensures Unmarshal(Wrapping, a + b).Ok? <==> Unmarshal(Wrapping, b).Ok?
  {
    hide Parse, Unmarshal, AllLegal, AllValidIn, FlattenAll;
    UnmarshalIffMessage(Wrapping, a);
    var fs :| AllValidIn(Wrapping, fs) && AllLegal(fs) && FlattenAll(fs) == a;
    assert (a + b)[0..|a|] == a && (a + b)[|a|..] == b && (a + b)[0..] == a + b;
    ParseFields(Wrapping, a + b, 0, fs);
    ParseIffMessage(Wrapping, a + b, 0);
    ParseIffMessage(Wrapping, a + b, |a|);
    UnmarshalIffMessage(Wrapping, a + b);
    UnmarshalIffMessage(Wrapping, b);
  }

  // ----- which error -----

  /** Behind any accepted message, the next tag `t` decides first: a closing tag is refused as
    * such, whatever its number; any other tag is refused for a number whose low 32 bits are 0,
    * or from 2^31 on, which are reported as negative.
    */
  lemma NextTagRefused(a: Arith, d: Buffer, fs: seq<Field>, t: seq<Byte>)
    requires AllValidIn(a, fs) && AllLegal(fs) && IsVarint(t)
    requires FlattenAll(fs) + t <= d
    ensures Value(t) % 8 == 4 ==> Unmarshal(a, d) == Err(EndGroupForNonGroup)
    ensures Value(t) % 8 != 4 && Value(t) / 8 % TWO_32 == 0 ==>
              Unmarshal(a, d) == Err(IllegalTag(0, Value(t)))
    ensures Value(t) % 8 != 4 && Value(t) / 8 % TWO_32 >= 0x8000_0000 ==>
              Unmarshal(a, d) == Err(IllegalTag(Value(t) / 8 % TWO_32 - TWO_32, Value(t)))
  {
    hide UvarintAt, IsVarint, Value, AllValidIn, AllLegal, FieldNumber, Run;
    var i := |FlattenAll(fs)|;
    assert d[0..i] == FlattenAll(fs);
    assert d[i..i + |t|] == t;
    ParseFields(a, d, 0, fs);
    UvarintAtSlice(d, i, i + |t|);
    VarintNotEmpty(t);
    NumberSign(Value(t));
  }

  /** A tag the parser lets pass to the skipper. */
  predicate Vetted(d: Buffer, i: nat)
    requires i <= |d|
  {
    var tag := UvarintAt(d, i);
    tag.Ok? ==> tag.value.value % 8 != 4 && PositiveNumber(tag.value.value)
  }

  /** The skipper's errors come out of the parser unchanged, behind any accepted message; an
    * unreadable tag gives the same error before the skipper is asked.
    */
  lemma SkipperErrorComesOut(a: Arith, d: Buffer, fs: seq<Field>, rest: Buffer, e: WireError)
    requires AllValidIn(a, fs) && AllLegal(fs) && FlattenAll(fs) + rest == d
    requires rest != [] && Vetted(rest, 0)
    requires Run(a, rest, 0, 0) == Err(e)
    ensures Unmarshal(a, d) == Err(e)
  {
    hide UvarintAt, AllValidIn, AllLegal, FlattenAll, FieldNumber, PositiveNumber, Run;
    var i := |FlattenAll(fs)|;
    BehindMessage(a, d, fs, rest);
    TagError(a, rest);
  }

  lemma TagError(a: Arith, d: Buffer)
    requires d != []
    ensures UvarintAt(d, 0).Err? ==> Run(a, d, 0, 0) == Err(UvarintAt(d, 0).error)
  {
    hide UvarintAt;
    if UvarintAt(d, 0).Err? {
      ErrorStops(a, d, 0, 0);
    }
  }

  /** What the parser's turn behind a message sees. */
  lemma BehindMessage(a: Arith, d: Buffer, fs: seq<Field>, rest: Buffer)
    requires AllValidIn(a, fs) && AllLegal(fs) && FlattenAll(fs) + rest == d
    ensures var i := |FlattenAll(fs)|;
            && d[i..] == rest && Parse(a, d, 0) == Parse(a, d, i)
            && (Vetted(rest, 0) && UvarintAt(rest, 0).Ok? ==>
                  && UvarintAt(d, i).Ok? && UvarintAt(d, i).value.value % 8 != 4
                  && FieldNumber(UvarintAt(d, i).value.value) > 0)
            && (UvarintAt(rest, 0).Err? ==> UvarintAt(d, i) == Err(UvarintAt(rest, 0).error))
  {
    hide Parse, AllValidIn, AllLegal, FieldNumber, PositiveNumber, Value, VarintSize;
    var i := |FlattenAll(fs)|;
    assert d[0..i] == FlattenAll(fs) && d[i..] == rest == rest[0..];
    ParseFields(a, d, 0, fs);
    if UvarintAt(rest, 0).Ok? {
      var n := VarintSize(rest).value;
      assert d[i..i + n] == rest[0..n];
      NumberSign(UvarintAt(rest, 0).value.value);
    }
  }

  /** When the skipper announces an end beyond the buffer, the parser reports an unexpected end
    * of input, unless the index has overflowed, which it reports as an invalid length.
    */
  lemma OverrunRefused(d: Buffer, fs: seq<Field>, rest: Buffer, n: nat)
    requires AllValid(fs) && AllLegal(fs) && FlattenAll(fs) + rest == d
    requires rest != [] && UvarintAt(rest, 0).Ok? && Vetted(rest, 0)
    requires Run(Wrapping, rest, 0, 0) == Ok(n) && n > |rest|
    ensures Unmarshal(Wrapping, d)
         == Err(if |FlattenAll(fs)| + n < TWO_63 then UnexpectedEOF else InvalidLength)
  {
    hide Parse, UvarintAt, AllValid, AllLegal, FlattenAll, FieldNumber, PositiveNumber, Run, Index, Vetted;
    var i := |FlattenAll(fs)|;
    assert AllValidIn(Wrapping, fs);
    BehindMessage(Wrapping, d, fs, rest);
    RunForward(Wrapping, rest, 0, 0);
    IndexSum(i, n);
    TurnRefused(d, i, n);
  }

  lemma IndexSum(i: nat, n: nat)
    requires i < TWO_63 && n < TWO_63
    ensures if i + n < TWO_63 then Index(Wrapping, i + n) == i + n else Index(Wrapping, i + n) < 0
  {
    IndexWraps(i + n);
    IndexIsInt(i + n);
  }

  lemma TurnRefused(d: Buffer, i: nat, n: nat)
    requires i < |d| && UvarintAt(d, i).Ok? && UvarintAt(d, i).value.value % 8 != 4
    requires FieldNumber(UvarintAt(d, i).value.value) > 0
    requires Run(Wrapping, d[i..], 0, 0) == Ok(n)
    ensures Index(Wrapping, i + n) < 0 ==> Parse(Wrapping, d, i) == Err(InvalidLength)
    ensures Index(Wrapping, i + n) > |d| ==> Parse(Wrapping, d, i) == Err(UnexpectedEOF)
  {
    hide UvarintAt, Run, Index, FieldNumber;
  }

  /** A message cut off inside a field is an unexpected end of input, wherever the cut is. */
  lemma TruncatedField(d: Buffer, fs: seq<Field>, f: Field, s: Buffer)
    requires AllValid(fs) && AllLegal(fs) && Valid(f) && LegalNumber(f)
    requires |FlattenAll(fs)| + |Flatten(f)| < TWO_63
    requires s != [] && s < Flatten(f) && d == FlattenAll(fs) + s
    ensures Unmarshal(Wrapping, d) == Err(UnexpectedEOF)
  {
    hide UvarintAt, AllValid, AllLegal, FlattenAll, Flatten, PositiveNumber, Run, Unmarshal, IsVarint, Value;
    var whole: Buffer := Flatten(f);
    var k, n := |s|, |whole|;
    assert s == whole[..k] && whole[0..n] == whole;
    RunField(Wrapping, whole, 0, f, 0);
    ResumeReturns(Wrapping, whole, n);
    RunTruncated(Wrapping, whole, k, 0, 0);
    TagOfField(whole, 0, f);
    UvarintTruncated(whole, k, 0);
    assert Vetted(s, 0);
    if Run(Wrapping, s, 0, 0) == Ok(n) {
      TagError(Wrapping, s);
      OverrunRefused(d, fs, s, n);
    } else {
      assert AllValidIn(Wrapping, fs);
      SkipperErrorComesOut(Wrapping, d, fs, s, UnexpectedEOF);
    }
  }

  /** Where a cut falls in a list of fields: between two of them, or inside one. */
  lemma {:induction false} CutFound(fs: seq<Field>, k: nat) returns (j: nat)
    requires AllValid(fs) && AllLegal(fs) && k <= |FlattenAll(fs)|
    ensures j <= |fs| && AllValid(fs[..j]) && AllLegal(fs[..j])
    ensures FlattenAll(fs[..j]) <= FlattenAll(fs)[..k]
    ensures k == |FlattenAll(fs[..j])| ||
            (&& j < |fs| && Valid(fs[j]) && LegalNumber(fs[j])
             && FlattenAll(fs)[..k][|FlattenAll(fs[..j])|..] < Flatten(fs[j])
             && |FlattenAll(fs[..j])| + |Flatten(fs[j])| <= |FlattenAll(fs)|)
    decreases fs
  {
    hide Valid, Flatten, LegalNumber;
    if fs == [] || k < |Flatten(fs[0])| {
      j := 0;
      assert fs[..0] == [];
      if fs != [] {
        assert FlattenAll(fs)[..k][0..] == Flatten(fs[0])[..k];
      }
    } else {
      var head, n := Flatten(fs[0]), |Flatten(fs[0])|;
      var i := CutFound(fs[1..], k - n);
      j := i + 1;
      assert fs[..j] == [fs[0]] + fs[1..][..i] && fs[..j][1..] == fs[1..][..i];
      assert FlattenAll(fs[..j]) == head + FlattenAll(fs[1..][..i]);
      assert FlattenAll(fs)[..k] == head + FlattenAll(fs[1..])[..k - n];
      if i < |fs[1..]| {
        assert fs[j] == fs[1..][i];
        var p := |FlattenAll(fs[1..][..i])|;
        assert FlattenAll(fs)[..k][n + p..] == FlattenAll(fs[1..])[..k - n][p..];
      }
    }
  }

  /** Every prefix of an accepted message is accepted, or refused as an unexpected end of input
    * and nothing else.
    */
  lemma PrefixOfMessage(m: Buffer, k: nat)
    requires Unmarshal(Wrapping, m).Ok? && k <= |m|
    ensures Unmarshal(Wrapping, m[..k]) in {Ok(()), Err(UnexpectedEOF)}
  {
    hide Unmarshal, AllValid, AllLegal, FlattenAll, Flatten, Valid, LegalNumber;
    UnmarshalIffMessage(Wrapping, m);
    var fs :| AllValidIn(Wrapping, fs) && AllLegal(fs) && FlattenAll(fs) == m;
    var j := CutFound(fs, k);
    var front := FlattenAll(fs[..j]);
    if k == |front| {
      assert front == m[..k];
      assert AllValidIn(Wrapping, fs[..j]);
      assert IsMessage(Wrapping, m[..k]);
      UnmarshalIffMessage(Wrapping, m[..k]);
      assert Unmarshal(Wrapping, m[..k]).value == ();
    } else {
      TruncatedField(m[..k], fs[..j], fs[j], m[..k][|front|..]);
    }
  }

  // ----- lengths that lose bits -----

  /** On a message, exact arithmetic accepts only if no length prefix loses bits. */
  lemma ExactIffSizesExact(d: Buffer, fs: seq<Field>)
    requires AllValid(fs) && AllLegal(fs) && FlattenAll(fs) == d
    ensures Unmarshal(Wrapping, d).Ok?
    ensures Unmarshal(Exact, d).Ok? <==> AllSizesExact(fs)
  {
    hide Unmarshal, AllValid, AllLegal, FlattenAll, AllSizesExact;
    UnmarshalIffMessage(Wrapping, d);
    UnmarshalIffMessage(Exact, d);
    assert AllValidIn(Wrapping, fs);
    if AllSizesExact(fs) {
      assert AllValidIn(Exact, fs);
    }
    if gs :| AllValidIn(Exact, gs) && AllLegal(gs) && FlattenAll(gs) == d {
      ParseUnique(fs, gs);
    }
  }

  /** The guard of the branch that goes wrong: of a message's length prefixes, at any nesting,
    * one has ten bytes of which the last is above 1.
    */
  ghost predicate HasOverlongLength(d: seq<Byte>) {
    exists fs :: AllValid(fs) && AllLegal(fs) && FlattenAll(fs) == d && !AllNoneOverlong(fs)
  }

  /** The code accepts a message whatever its length prefixes; arithmetic that keeps every bit
    * of a length accepts it exactly when no prefix is overlong.
    */
  lemma ExactIffNoneOverlong(d: Buffer, fs: seq<Field>)
    requires AllValid(fs) && AllLegal(fs) && FlattenAll(fs) == d
    ensures Unmarshal(Wrapping, d).Ok?
    ensures Unmarshal(Exact, d).Ok? <==> AllNoneOverlong(fs)
  {
    hide Unmarshal, AllValid, AllLegal, FlattenAll, AllSizesExact, AllNoneOverlong;
    ExactIffSizesExact(d, fs);
    AllSizesExactIff(fs);
  }

  /** On all buffers: the code and exact length arithmetic disagree exactly on the messages with
    * an overlong length prefix.
    */
  lemma ExactAgreesIff(d: Buffer)
    ensures Unmarshal(Wrapping, d).Ok? == Unmarshal(Exact, d).Ok? <==> !HasOverlongLength(d)
  {
    hide Unmarshal, AllValid, AllLegal, FlattenAll, AllSizesExact, AllNoneOverlong;
    UnmarshalIffMessage(Wrapping, d);
    UnmarshalIffMessage(Exact, d);
    if fs :| AllValid(fs) && AllLegal(fs) && FlattenAll(fs) == d {
      ExactIffNoneOverlong(d, fs);
    } else {
      assert !IsMessage(Wrapping, d) && !IsMessage(Exact, d);
    }
    if HasOverlongLength(d) {
      var fs :| AllValid(fs) && AllLegal(fs) && FlattenAll(fs) == d && !AllNoneOverlong(fs);
      ExactIffNoneOverlong(d, fs);
    }
  }

  /** The smallest such buffer: field 1, whose length prefix spells 2^64 and is read as 0. */
  lemma TenthByteDropped()
    ensures var d: Buffer := [0x0A, 0x80, 0x80, 0x80, 0x80, 0x80, 0x80, 0x80, 0x80, 0x80, 0x02];
            Unmarshal(Wrapping, d).Ok? && Unmarshal(Exact, d).Err?
  {
    hide Unmarshal, Groups;
    var size := [0x80, 0x80, 0x80, 0x80, 0x80, 0x80, 0x80, 0x80, 0x80, 0x02];
    var f := BytesField([0x0A], size, []);
    OverlongSize(size);
    OneByteTag(0x0A);
    var d: Buffer := [0x0A, 0x80, 0x80, 0x80, 0x80, 0x80, 0x80, 0x80, 0x80, 0x80, 0x02];
    assert Flatten(f) == [0x0A] + size == d && FlattenAll([f]) == d;
    ExactIffSizesExact(d, [f]);
  }

  lemma OverlongSize(size: seq<Byte>)
    requires |size| == 10 && size[9] == 0x02 && forall i :: 0 <= i < 9 ==> size[i] == 0x80
    ensures Groups(size) == TWO_64
  {
    assert size == seq(9, _ => 0x80) + [0x02];
    ZeroGroups(9, [0x02]);
    WordPowers();
    assert Groups([0x02]) == 2;
  }

  lemma {:induction false} ZeroGroups(n: nat, s: seq<Byte>)
    ensures Groups(seq(n, _ => 0x80) + s) == Pow2(7 * n) * Groups(s)
  {
    hide Pow2;
    var z := seq(n, _ => 0x80) + s;
    SmallPowers();
    if n == 0 {
      assert z == s;
    } else {
      assert z[1..] == seq(n - 1, _ => 0x80) + s;
      ZeroGroups(n - 1, s);
      SevenMore(n - 1);
      MulRegroup(0x80, Pow2(7 * (n - 1)), Groups(s));
    }
  }

  lemma OneByteTag(b: Byte)
    requires b < 0x80
    ensures IsVarint([b]) && Value([b]) == b && Groups([b]) == b
  {
    assert [b][1..] == [];
    assert Groups([b]) == b % 0x80 + 0x80 * Groups([]);
  }

  // ----- closing tags that do not match -----

  /** A message by the encoding's own rule for groups. */
  ghost predicate IsMatchedMessage(s: seq<Byte>) {
    exists fs :: AllValid(fs) && AllLegal(fs) && AllMatched(fs) && FlattenAll(fs) == s
  }

  /** The code accepts every message whatever numbers close its groups; the message obeys the
    * encoding's rule exactly when every group of its one parse, at any nesting, is matched.
    */
  lemma MatchedIff(d: Buffer, fs: seq<Field>)
    requires AllValid(fs) && AllLegal(fs) && FlattenAll(fs) == d
    ensures Unmarshal(Wrapping, d).Ok?
    ensures IsMatchedMessage(d) <==> AllMatched(fs)
  {
    hide Unmarshal, AllValid, AllLegal, FlattenAll, AllMatched;
    UnmarshalIffMessage(Wrapping, d);
    assert AllValidIn(Wrapping, fs);
    if gs :| AllValid(gs) && AllLegal(gs) && AllMatched(gs) && FlattenAll(gs) == d {
      ParseUnique(fs, gs);
    }
  }

  /** On all buffers: the code is laxer than the rule exactly on the messages with an unmatched
    * group, and stricter on none.
    */
  lemma LaxIffUnmatched(d: Buffer)
    ensures IsMatchedMessage(d) ==> Unmarshal(Wrapping, d).Ok?
    ensures Unmarshal(Wrapping, d).Ok? && !IsMatchedMessage(d) <==>
              exists fs :: AllValid(fs) && AllLegal(fs) && FlattenAll(fs) == d && !AllMatched(fs)
  {
    hide Unmarshal, AllValid, AllLegal, FlattenAll, AllMatched;
    UnmarshalIffMessage(Wrapping, d);
    if fs :| AllValid(fs) && AllLegal(fs) && FlattenAll(fs) == d {
      MatchedIff(d, fs);
    }
    if fs :| AllValid(fs) && AllLegal(fs) && FlattenAll(fs) == d && !AllMatched(fs) {
      MatchedIff(d, fs);
    }
  }

  /** The smallest such buffer: field 1 opened as a group and closed as field 2. */
  lemma UnmatchedGroupAccepted()
    ensures var d: Buffer := [0x0B, 0x14];
            Unmarshal(Wrapping, d).Ok? && !IsMatchedMessage(d)
  {
    hide Unmarshal, Groups, IsMatchedMessage;
    var f := GroupField([0x0B], [], [0x14]);
    OneByteTag(0x0B);
    OneByteTag(0x14);
    var d: Buffer := [0x0B, 0x14];
    assert Flatten(f) == d && FlattenAll([f]) == d;
    MatchedIff(d, [f]);
  }

  // ----- branches that cannot be taken -----

  /** The check after the loop never fires: the loop ends exactly at the end of the buffer. */
  lemma LoopEndsAtEnd(a: Arith, d: Buffer)
    ensures Parse(a, d, 0).Ok? ==> Parse(a, d, 0) == Ok(|d|)
  {
    hide Parse, IsMessage;
    ParseIffMessage(a, d, 0);
  }

  /** The skipper's unexpected-end-of-group error cannot come out of the parser: depth is 0
    * only at a field's first tag, and the parser has already refused a closing tag there.
    */
  lemma {:induction false} NoUnexpectedEndOfGroup(a: Arith, d: Buffer, i: nat)
    requires i <= |d|
    ensures Parse(a, d, i) != Err(UnexpectedEndOfGroup)
    decreases |d| - i
  {
    hide UvarintAt, Run, Index, FieldNumber;
    UvarintErrors(d, i);
    if i < |d| && UvarintAt(d, i).Ok? && UvarintAt(d, i).value.value % 8 != 4 {
      VettedTag(a, d, i);
      RunForward(a, d[i..], 0, 0);
      var r := Run(a, d[i..], 0, 0);
      if r.Ok? {
        IndexForward(a, i, r.value);
        if 0 <= Index(a, i + r.value) <= |d| {
          NoUnexpectedEndOfGroup(a, d, Index(a, i + r.value));
        }
      }
    }
  }

  lemma UvarintErrors(d: Buffer, i: nat)
    requires i <= |d|
    ensures UvarintAt(d, i) != Err(UnexpectedEndOfGroup)
  {
    hide Value;
  }

  lemma VettedTag(a: Arith, d: Buffer, i: nat)
    requires i < |d| && UvarintAt(d, i).Ok? && UvarintAt(d, i).value.value % 8 != 4
    ensures Run(a, d[i..], 0, 0) != Err(UnexpectedEndOfGroup)
  {
    hide Index, Value, IsVarint;
    assert d[i..][0..] == d[i..];
    var s := d[i..];
    VarintAt(d, i);
    var j := UvarintAt(d, i).value.next;
    assert d[i..j] == s[0..j - i];
    UvarintAtSlice(s, 0, j - i);
    ItemErrors(a, s, 0);
    ItemProgress(a, s, 0);
    if ItemAt(a, s, 0).Ok? {
      var item := ItemAt(a, s, 0).value;
      if item.next >= 0 && Nesting(item.move, 0) > 0 {
        NoStrayClose(a, s, item.next, Nesting(item.move, 0));
      }
    }
  }

  lemma UnmarshalNeverStrays(d: Buffer)
    ensures Unmarshal(Wrapping, d) != Err(UnexpectedEndOfGroup)
  {
    NoUnexpectedEndOfGroup(Wrapping, d, 0);
  }
}

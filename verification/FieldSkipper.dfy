/** `skipAuth`: the loop that skips one field, nested groups included, with a depth counter
  * instead of recursion. `Run` is the loop's meaning; the theorems below relate it to the
  * recursive grammar of `WireFormat`.
  */
module FieldSkipper {
  import opened Words
  import opened Slices
  import opened WireResult
  import opened Varint
  import opened WireFormat

  /** `Wrapping` is Go's arithmetic: indices and lengths are 64-bit `int`s. `Unbounded` reads
    * a length as an unsigned 64-bit value and adds without overflow. `Exact` moreover keeps
    * the bits of a length that a 64-bit shift drops.
    */
  datatype Arith = Wrapping | Unbounded | Exact

  function Index(a: Arith, x: int): (y: int)
    ensures a.Wrapping? ==> -TWO_63 <= y < TWO_63
  {
    if a.Wrapping? then ToInt64(x) else x
  }

  function Length(a: Arith, size: seq<Byte>): int {
    match a
    case Wrapping => ToInt64(Value(size))
    case Unbounded => Value(size)
    case Exact => Groups(size)
  }

  datatype Move = Leaf | Open | Close

  /** One turn of the loop: what the tag did to the depth, and the index after its payload. */
  datatype Item = Item(move: Move, next: int)

  function ItemAt(a: Arith, d: Buffer, i: nat): (r: Result<Item>)
    requires i <= |d|
  {
    var tag :- UvarintAt(d, i);
    match tag.value % 8
    case 0 =>
      var end :- PassAt(d, tag.next);
      Ok(Item(Leaf, end))
    case 1 => Ok(Item(Leaf, Index(a, tag.next + 8)))
    case 2 =>
      var size :- UvarintAt(d, tag.next);
      var length := Length(a, d[tag.next..size.next]);
      if length < 0 then Err(InvalidLength)
      else Ok(Item(Leaf, Index(a, size.next + length)))
    case 3 => Ok(Item(Open, tag.next))
    case 4 => Ok(Item(Close, tag.next))
    case 5 => Ok(Item(Leaf, Index(a, tag.next + 4)))
    case wireType => Err(IllegalWireType(wireType))
  }

  /** A turn that does not overflow moves forward; a tag on its own stays inside the buffer. */
  lemma ItemProgress(a: Arith, d: Buffer, i: nat)
    requires i <= |d|
    ensures var r := ItemAt(a, d, i);
            r.Ok? ==> (r.value.next < 0 || i < r.value.next) && (!r.value.move.Leaf? ==> 0 <= r.value.next <= |d|)
  {
    hide UvarintAt, Index, Value, Groups;
    var tag := UvarintAt(d, i);
    if tag.Ok? {
      IndexForward(a, tag.value.next, 8);
      IndexForward(a, tag.value.next, 4);
      var size := UvarintAt(d, tag.value.next);
      if size.Ok? {
        var length := Length(a, d[tag.value.next..size.value.next]);
        if length >= 0 {
          IndexForward(a, size.value.next, length);
        }
      }
    }
  }

  /** An index that overflows turns negative; it never comes back to a smaller one. */
  lemma IndexForward(a: Arith, i: nat, n: nat)
    requires i < TWO_63
    requires a.Wrapping? ==> n < TWO_63
    ensures Index(a, i + n) == i + n || Index(a, i + n) < 0
  {
  }

  function Remaining(d: Buffer, i: nat): nat {
    if i < |d| then |d| - i else 0
  }

  /** The loop from index `i` at nesting depth `depth`. */
  function Run(a: Arith, d: Buffer, i: nat, depth: nat): (r: Result<int>)
    decreases Remaining(d, i), 0
  {
    if i >= |d| then Err(UnexpectedEOF)
    else
      ItemProgress(a, d, i);
      var item :- ItemAt(a, d, i);
      if item.move.Close? && depth == 0 then Err(UnexpectedEndOfGroup)
      else if item.next < 0 then Err(InvalidLength)
      else Resume(a, d, item.next, Nesting(item.move, depth))
  }

  function Nesting(m: Move, depth: nat): nat
    requires m.Close? ==> depth > 0
  {
    match m
    case Leaf => depth
    case Open => depth + 1
    case Close => depth - 1
  }

  /** After a turn the loop returns at depth 0 and otherwise goes on. */
  function Resume(a: Arith, d: Buffer, i: nat, depth: nat): Result<int>
    decreases Remaining(d, i), 1
  {
    if depth == 0 then Ok(i) else Run(a, d, i, depth)
  }

  function Skip(d: Buffer): Result<int> {
    Run(Wrapping, d, 0, 0)
  }

  method SkipAuth(d: Buffer) returns (r: Result<int>)
    ensures r == Skip(d)
  {
    hide UvarintAt, And, ToInt64, Value, IsVarint;
    var l := |d|;
    var iNdEx: Int64 := 0;
    var depth: Int64 := 0;
    while iNdEx < l
      invariant 0 <= iNdEx && 0 <= depth
      invariant iNdEx <= l ==> depth <= iNdEx
      invariant iNdEx > l ==> depth <= l
      invariant Run(Wrapping, d, iNdEx, depth) == Skip(d)
      decreases l - iNdEx
    {
      ItemProgress(Wrapping, d, iNdEx);
      var tag :- ReadUvarint(d, iNdEx);
      iNdEx := tag.next;
      var wireType := And(tag.value, 0x7);
      CodecMasks(tag.value);
      match wireType {
        case 0 =>
          iNdEx :- PassVarint(d, iNdEx);
        case 1 =>
          iNdEx := ToInt64(iNdEx + 8);
        case 2 =>
          VarintAt(d, iNdEx);
          var length :- ReadLength(d, iNdEx);
          iNdEx := length.next;
          if length.value < 0 {
            return Err(InvalidLength);
          }
          iNdEx := ToInt64(iNdEx + length.value);
        case 3 =>
          depth := depth + 1;
        case 4 =>
          if depth == 0 {
            return Err(UnexpectedEndOfGroup);
          }
          depth := depth - 1;
        case 5 =>
          iNdEx := ToInt64(iNdEx + 4);
        case _ =>
          return Err(IllegalWireType(wireType));
      }
      if iNdEx < 0 {
        return Err(InvalidLength);
      }
      if depth == 0 {
        return Ok(iNdEx);
      }
    }
    return Err(UnexpectedEOF);
  }

  // ----- the grammar drives the loop -----

  /** A field that this arithmetic can pass over: with exact lengths, only one without
    * dropped bits.
    */
  predicate ValidIn(a: Arith, f: Field) {
    Valid(f) && (a.Exact? ==> SizesExact(f))
  }

  predicate AllValidIn(a: Arith, fs: seq<Field>) {
    AllValid(fs) && (a.Exact? ==> AllSizesExact(fs))
  }

  lemma NoWrap(a: Arith, x: int)
    requires 0 <= x < TWO_63
    ensures Index(a, x) == x
  {
  }

  lemma IndexIsInt64(x: int)
    ensures Index(Wrapping, x) == ToInt64(x)
  {
  }

  lemma ItemOfVarint(a: Arith, d: Buffer, i: nat, tag: seq<Byte>, value: seq<Byte>)
    requires IsTag(tag, 0) && IsVarint(value)
    requires i + |tag + value| <= |d| && d[i..i + |tag + value|] == tag + value
    ensures ItemAt(a, d, i) == Ok(Item(Leaf, i + |tag + value|))
  {
    hide UvarintAt, Value, Index;
    TwoParts(d, i, tag, value);
    UvarintAtSlice(d, i, i + |tag|);
    UvarintAtSlice(d, i + |tag|, i + |tag| + |value|);
  }

  lemma ItemOfFixed(a: Arith, d: Buffer, i: nat, tag: seq<Byte>, body: seq<Byte>)
    requires (IsTag(tag, 1) && |body| == 8) || (IsTag(tag, 5) && |body| == 4)
    requires i + |tag + body| <= |d| && d[i..i + |tag + body|] == tag + body
    ensures ItemAt(a, d, i) == Ok(Item(Leaf, i + |tag + body|))
  {
    hide UvarintAt, Value, Index;
    TwoParts(d, i, tag, body);
    UvarintAtSlice(d, i, i + |tag|);
    NoWrap(a, i + |tag + body|);
  }

  lemma ItemOfBytes(a: Arith, d: Buffer, i: nat, tag: seq<Byte>, size: seq<Byte>, body: seq<Byte>)
    requires IsTag(tag, 2) && IsVarint(size) && Value(size) == |body|
    requires a.Exact? ==> Groups(size) == |body|
    requires i + |tag + size + body| <= |d| && d[i..i + |tag + size + body|] == tag + size + body
    ensures ItemAt(a, d, i) == Ok(Item(Leaf, i + |tag + size + body|))
  {
    hide UvarintAt, Value, Index, Groups, ToInt64;
    Parts(d, i, tag, size, body);
    UvarintAtSlice(d, i, i + |tag|);
    UvarintAtSlice(d, i + |tag|, i + |tag| + |size|);
    NoWrap(Wrapping, |body|);
    assert Length(a, size) == |body| by { IndexIsInt64(|body|); }
    NoWrap(a, i + |tag + size + body|);
  }

  lemma ItemOfLeaf(a: Arith, d: Buffer, i: nat, f: Field)
    requires ValidIn(a, f) && !f.GroupField?
    requires i + |Flatten(f)| <= |d| && d[i..i + |Flatten(f)|] == Flatten(f)
    ensures |Flatten(f)| > 0 && ItemAt(a, d, i) == Ok(Item(Leaf, i + |Flatten(f)|))
  {
    hide ItemAt, Value, Groups;
    match f {
      case VarintField(tag, value) => ItemOfVarint(a, d, i, tag, value);
      case Fixed64Field(tag, body) => ItemOfFixed(a, d, i, tag, body);
      case BytesField(tag, size, body) => ItemOfBytes(a, d, i, tag, size, body);
      case Fixed32Field(tag, body) => ItemOfFixed(a, d, i, tag, body);
    }
  }

  lemma ItemOfTag(a: Arith, d: Buffer, i: nat, j: nat, open: bool)
    requires i <= j <= |d| && IsTag(d[i..j], if open then 3 else 4)
    ensures i < j && ItemAt(a, d, i) == Ok(Item(if open then Open else Close, j))
  {
    UvarintAtSlice(d, i, j);
  }

  lemma TakeTurn(a: Arith, d: Buffer, i: nat, item: Item, depth: nat)
    requires i < |d| && ItemAt(a, d, i) == Ok(item)
    requires item.next >= 0 && (item.move.Close? ==> depth > 0)
    ensures Run(a, d, i, depth) == Resume(a, d, item.next, Nesting(item.move, depth))
  {
    hide ItemAt;
  }

  lemma ResumeGoesOn(a: Arith, d: Buffer, i: nat, depth: nat)
    requires depth > 0
    ensures Resume(a, d, i, depth) == Run(a, d, i, depth)
  {
  }

  /** Wherever a field of the grammar stands, the loop passes over exactly its bytes and is
    * back at the depth it started from.
    */
  lemma {:induction false} RunField(a: Arith, d: Buffer, i: nat, f: Field, depth: nat)
    requires ValidIn(a, f)
    requires i + |Flatten(f)| <= |d| && d[i..i + |Flatten(f)|] == Flatten(f)
    ensures Run(a, d, i, depth) == Resume(a, d, i + |Flatten(f)|, depth)
    decreases f, 1
  {
    hide Run, UvarintAt, IsTag, ItemAt;
    match f {
      case GroupField(tag, members, close) =>
        var inner := FlattenAll(members);
        var j := i + |tag|;
        var k := j + |inner|;
        Parts(d, i, tag, inner, close);
        ItemOfTag(a, d, i, j, true);
        TakeTurn(a, d, i, Item(Open, j), depth);
        RunFields(a, d, j, members, depth + 1);
        ResumeGoesOn(a, d, j, depth + 1);
        ItemOfTag(a, d, k, k + |close|, false);
        TakeTurn(a, d, k, Item(Close, k + |close|), depth + 1);
      case _ =>
        ItemOfLeaf(a, d, i, f);
        TakeTurn(a, d, i, Item(Leaf, i + |Flatten(f)|), depth);
    }
  }

  lemma {:induction false} RunFields(a: Arith, d: Buffer, i: nat, fs: seq<Field>, depth: nat)
    requires AllValidIn(a, fs) && depth > 0
    requires i + |FlattenAll(fs)| <= |d| && d[i..i + |FlattenAll(fs)|] == FlattenAll(fs)
    ensures Run(a, d, i, depth) == Run(a, d, i + |FlattenAll(fs)|, depth)
    decreases fs, 0
  {
    hide ItemAt, UvarintAt, Valid, SizesExact, Flatten;
    if fs == [] {
    } else {
      TwoParts(d, i, Flatten(fs[0]), FlattenAll(fs[1..]));
      RunField(a, d, i, fs[0], depth);
      RunFields(a, d, i + |Flatten(fs[0])|, fs[1..], depth);
    }
  }

  // ----- the loop finds the grammar -----

  lemma VarintAt(d: Buffer, i: nat)
    requires i <= |d|
    ensures UvarintAt(d, i).Ok? ==>
              var u := UvarintAt(d, i).value;
              i < u.next <= |d| && IsVarint(d[i..u.next]) && u.value == Value(d[i..u.next])
  {
    hide IsVarint, Value;
    if UvarintAt(d, i).Ok? {
      var n := VarintSize(d[i..]).value;
      VarintSizeOutcomes(d[i..]);
      assert d[i..][..n] == d[i..i + n];
    }
  }

  lemma FixedFound(a: Arith, d: Buffer, i: nat, j: nat)
    requires i <= |d| && j <= |d| && ItemAt(a, d, i) == Ok(Item(Leaf, j))
    requires UvarintAt(d, i).value.value % 8 in {1, 5}
    ensures var k := UvarintAt(d, i).value.next;
            j == k + (if UvarintAt(d, i).value.value % 8 == 1 then 8 else 4)
  {
    hide UvarintAt, Index;
    IndexForward(a, UvarintAt(d, i).value.next, 8);
    IndexForward(a, UvarintAt(d, i).value.next, 4);
  }

  lemma BytesFound(a: Arith, d: Buffer, i: nat, j: nat) returns (m: nat)
    requires i <= |d| && j <= |d| && ItemAt(a, d, i) == Ok(Item(Leaf, j))
    requires UvarintAt(d, i).value.value % 8 == 2
    ensures var k := UvarintAt(d, i).value.next;
            && k <= m <= j && IsVarint(d[k..m]) && Value(d[k..m]) == j - m
            && (a.Exact? ==> Groups(d[k..m]) == j - m)
  {
    hide UvarintAt, IsVarint, Value, Index, Groups, Length;
    var k := UvarintAt(d, i).value.next;
    VarintAt(d, k);
    m := UvarintAt(d, k).value.next;
    var length := Length(a, d[k..m]);
    LengthInRange(a, d[k..m]);
    IndexForward(a, m, length);
    LengthFits(a, d[k..m]);
  }

  /** A turn that leaves the depth alone has passed over one field without members. */
  lemma LeafFound(a: Arith, d: Buffer, i: nat, j: nat) returns (f: Field)
    requires i <= |d| && j <= |d| && ItemAt(a, d, i) == Ok(Item(Leaf, j))
    ensures i < j && ValidIn(a, f) && Flatten(f) == d[i..j]
  {
    hide UvarintAt, IsVarint, Value, Index, Groups, Length;
    VarintAt(d, i);
    var tag := UvarintAt(d, i).value;
    var t, k := d[i..tag.next], tag.next;
    if tag.value % 8 == 0 {
      VarintAt(d, k);
      f := VarintField(t, d[k..j]);
      Join(d, i, k, j);
    } else if tag.value % 8 == 2 {
      var m := BytesFound(a, d, i, j);
      f := BytesField(t, d[k..m], d[m..j]);
      Join(d, i, k, m);
      Join(d, i, m, j);
    } else {
      FixedFound(a, d, i, j);
      f := if tag.value % 8 == 1 then Fixed64Field(t, d[k..j]) else Fixed32Field(t, d[k..j]);
      Join(d, i, k, j);
    }
  }

  lemma LengthInRange(a: Arith, size: seq<Byte>)
    ensures a.Wrapping? ==> Length(a, size) < TWO_63
  {
    hide Value;
  }

  /** A length that fits the buffer is the size prefix's value in every arithmetic. */
  lemma LengthFits(a: Arith, size: seq<Byte>)
    ensures 0 <= Length(a, size) < TWO_63 ==>
              Length(a, size) == Value(size) && (a.Exact? ==> Length(a, size) == Groups(size))
  {
    hide Groups;
  }

  lemma TagFound(a: Arith, d: Buffer, i: nat, j: nat, open: bool)
    requires i <= |d| && ItemAt(a, d, i) == Ok(Item(if open then Open else Close, j))
    ensures i < j <= |d| && IsTag(d[i..j], if open then 3 else 4)
  {
    hide UvarintAt, IsVarint, Value, Index;
    VarintAt(d, i);
  }

  /** What a success says about its first turn. */
  lemma TurnTaken(a: Arith, d: Buffer, i: nat, depth: nat)
    requires Run(a, d, i, depth).Ok?
    ensures i < |d| && ItemAt(a, d, i).Ok?
    ensures var item := ItemAt(a, d, i).value;
            && i < item.next && (item.move.Close? ==> depth > 0)
            && (!item.move.Leaf? ==> item.next <= |d|)
            && var depth' := Nesting(item.move, depth);
               && Resume(a, d, item.next, depth') == Run(a, d, i, depth)
               && (depth' > 0 ==> item.next < |d| && Run(a, d, item.next, depth') == Run(a, d, i, depth))
  {
    hide ItemAt;
    ItemProgress(a, d, i);
  }

  /** From inside a group the loop first reads the group's members and its closing tag. */
  lemma {:induction false} MembersFound(a: Arith, d: Buffer, i: nat, depth: nat, n: nat)
    returns (fs: seq<Field>, close: seq<Byte>, m: nat)
    requires n <= |d| && Run(a, d, i, depth + 1) == Ok(n)
    ensures AllValidIn(a, fs) && IsTag(close, 4)
    ensures i < m <= |d| && d[i..m] == FlattenAll(fs) + close
    ensures Resume(a, d, m, depth) == Ok(n)
    decreases Remaining(d, i)
  {
    hide Run, Resume, ItemAt, IsTag, Flatten;
    TurnTaken(a, d, i, depth + 1);
    var item := ItemAt(a, d, i).value;
    var j := item.next;
    match item.move {
      case Close =>
        TagFound(a, d, i, j, false);
        fs, close, m := [], d[i..j], j;
        assert FlattenAll([]) + close == close;
      case Leaf =>
        var f := LeafFound(a, d, i, j);
        fs, close, m := MembersFound(a, d, j, depth, n);
        PrependField(f, fs, close);
        Join(d, i, j, m);
        fs := [f] + fs;
      case Open =>
        TagFound(a, d, i, j, true);
        var members, inner, k := MembersFound(a, d, j, depth + 1, n);
        ResumeGoesOn(a, d, k, depth + 1);
        fs, close, m := MembersFound(a, d, k, depth, n);
        var f := GroupField(d[i..j], members, inner);
        GroupSpelling(d[i..j], members, inner);
        PrependField(f, fs, close);
        Join(d, i, j, k);
        Join(d, i, k, m);
        fs := [f] + fs;
    }
  }

  lemma FieldFound(a: Arith, d: Buffer, i: nat, n: nat) returns (f: Field)
    requires n <= |d| && Run(a, d, i, 0) == Ok(n)
    ensures i < n && ValidIn(a, f) && Flatten(f) == d[i..n]
  {
    hide Run, ItemAt, IsTag, Flatten;
    TurnTaken(a, d, i, 0);
    var item := ItemAt(a, d, i).value;
    var j := item.next;
    if item.move.Leaf? {
      f := LeafFound(a, d, i, j);
    } else {
      TagFound(a, d, i, j, true);
      var members, close, m := MembersFound(a, d, j, 0, n);
      f := GroupField(d[i..j], members, close);
      GroupSpelling(d[i..j], members, close);
      Join(d, i, j, n);
    }
  }

  lemma RunIffField(a: Arith, d: Buffer, n: nat)
    requires n <= |d|
    ensures Run(a, d, 0, 0) == Ok(n) <==> exists f :: ValidIn(a, f) && Flatten(f) == d[..n]
  {
    hide Run, Flatten, ValidIn;
    if Run(a, d, 0, 0) == Ok(n) {
      var f := FieldFound(a, d, 0, n);
      assert d[0..n] == d[..n];
    }
    if f :| ValidIn(a, f) && Flatten(f) == d[..n] {
      assert d[0..n] == d[..n];
      RunField(a, d, 0, f, 0);
      assert Resume(a, d, n, 0) == Ok(n);
    }
  }

  /** The depth-counter loop refines the recursive grammar: it succeeds inside the buffer at
    * `n` exactly when the first `n` bytes spell one complete field.
    */
  lemma SkipIffField(d: Buffer, n: nat)
    requires n <= |d|
    ensures Skip(d) == Ok(n) <==> exists f :: Valid(f) && Flatten(f) == d[..n]
  {
    hide Run, Flatten, Valid;
    RunIffField(Wrapping, d, n);
    if f :| Valid(f) && Flatten(f) == d[..n] {
      assert ValidIn(Wrapping, f);
    }
  }

  // ----- progress, extension, prefixes -----

  /** A success lies beyond the start; in Go's arithmetic it is an `int`. */
  lemma {:induction false} RunForward(a: Arith, d: Buffer, i: nat, depth: nat)
    ensures var r := Run(a, d, i, depth);
            r.Ok? ==> i < r.value && (a.Wrapping? ==> r.value < TWO_63)
    decreases Remaining(d, i)
  {
    hide Run, ItemAt;
    if Run(a, d, i, depth).Ok? {
      TurnTaken(a, d, i, depth);
      ItemInRange(a, d, i);
      var item := ItemAt(a, d, i).value;
      if Nesting(item.move, depth) > 0 {
        RunForward(a, d, item.next, Nesting(item.move, depth));
      }
    }
  }

  lemma ItemInRange(a: Arith, d: Buffer, i: nat)
    requires i <= |d|
    ensures a.Wrapping? && ItemAt(a, d, i).Ok? ==> ItemAt(a, d, i).value.next < TWO_63
  {
    hide UvarintAt, Index, Length;
  }

  lemma ItemErrors(a: Arith, d: Buffer, i: nat)
    requires i <= |d|
    ensures ItemAt(a, d, i) != Err(UnexpectedEndOfGroup)
  {
    hide Index, Value, Length;
  }

  /** Below the top level the loop never meets a closing tag without its group. */
  lemma {:induction false} NoStrayClose(a: Arith, d: Buffer, i: nat, depth: nat)
    requires depth > 0
    ensures Run(a, d, i, depth) != Err(UnexpectedEndOfGroup)
    decreases Remaining(d, i)
  {
    hide ItemAt;
    if i < |d| {
      ItemProgress(a, d, i);
      ItemErrors(a, d, i);
    }
    if i < |d| && ItemAt(a, d, i).Ok? {
      var item := ItemAt(a, d, i).value;
      if item.next >= 0 && Nesting(item.move, depth) > 0 {
        NoStrayClose(a, d, item.next, Nesting(item.move, depth));
      }
    }
  }

  /** The unexpected-end-of-group error means just this: the first tag is a closing one. */
  lemma StrayCloseIff(d: Buffer)
    ensures Skip(d) == Err(UnexpectedEndOfGroup) <==> exists k :: 0 <= k <= |d| && IsTag(d[..k], 4)
  {
    hide Run, IsTag;
    if Skip(d) == Err(UnexpectedEndOfGroup) {
      var k := StrayCloseFound(d);
    }
    if k :| 0 <= k <= |d| && IsTag(d[..k], 4) {
      StrayCloseRefused(d, k);
    }
  }

  lemma StrayCloseRefused(d: Buffer, k: nat)
    requires k <= |d| && IsTag(d[..k], 4)
    ensures Skip(d) == Err(UnexpectedEndOfGroup)
  {
    hide ItemAt, IsTag;
    assert d[0..k] == d[..k];
    ItemOfTag(Wrapping, d, 0, k, false);
  }

  lemma LeafEndsRun(a: Arith, d: Buffer)
    ensures ItemAt(a, d, 0).Ok? && ItemAt(a, d, 0).value.move.Leaf? ==> Run(a, d, 0, 0) != Err(UnexpectedEndOfGroup)
  {
    hide ItemAt;
    var r := ItemAt(a, d, 0);
    if r.Ok? && r.value.move.Leaf? && r.value.next >= 0 {
      assert Resume(a, d, r.value.next, 0) == Ok(r.value.next);
    }
  }

  lemma StrayCloseFound(d: Buffer) returns (k: nat)
    requires Skip(d) == Err(UnexpectedEndOfGroup)
    ensures k <= |d| && IsTag(d[..k], 4)
  {
    hide ItemAt, IsTag;
    ItemErrors(Wrapping, d, 0);
    ItemProgress(Wrapping, d, 0);
    LeafEndsRun(Wrapping, d);
    var item := ItemAt(Wrapping, d, 0).value;
    if item.move.Open? {
      ResumeGoesOn(Wrapping, d, item.next, 1);
      NoStrayClose(Wrapping, d, item.next, 1);
    }
    k := item.next;
    TagFound(Wrapping, d, 0, k, false);
    assert d[0..k] == d[..k];
  }

  /** Wherever the loop stands, in front of a field or behind any members of an open group: a
    * length that is negative as an `int`, or that would move the index past the largest `int`,
    * is refused as invalid, whatever follows it.
    */
  lemma LengthOverflowRefused(d: Buffer, i: nat, depth: nat, fs: seq<Field>, t: seq<Byte>, size: seq<Byte>)
    requires i <= |d| && FlattenAll(fs) + t + size <= d[i..]
    requires AllValid(fs) && (fs == [] || depth > 0)
    requires IsTag(t, 2) && IsVarint(size)
    requires i + |FlattenAll(fs) + t + size| + Value(size) >= TWO_63
    ensures Run(Wrapping, d, i, depth) == Err(InvalidLength)
  {
    hide Run, UvarintAt, IsVarint, Value, AllValid, FlattenAll, Index, Length;
    var inner := FlattenAll(fs);
    var j := i + |inner|;
    var k := j + |t| + |size|;
    assert d[i..][..|inner + t + size|] == d[i..i + |inner| + |t| + |size|];
    Parts(d, i, inner, t, size);
    MembersPassed(Wrapping, d, i, depth, fs);
    UvarintAtSlice(d, j, j + |t|);
    UvarintAtSlice(d, j + |t|, k);
    VarintNotEmpty(t);
    LengthAsInt(size);
    if Value(size) >= TWO_63 {
      ErrorStops(Wrapping, d, j, depth);
    } else {
      IndexWraps(k + Value(size));
      assert Index(Wrapping, k + Value(size)) < 0;
      OverflowStops(Wrapping, d, j, depth);
    }
  }

  /** The same for the fixed sizes, where the buffer itself nearly fills the address space. */
  lemma FixedOverflowRefused(d: Buffer, i: nat, depth: nat, fs: seq<Field>, t: seq<Byte>)
    requires i <= |d| && FlattenAll(fs) + t <= d[i..]
    requires AllValid(fs) && (fs == [] || depth > 0)
    requires IsTag(t, 1) || IsTag(t, 5)
    requires i + |FlattenAll(fs) + t| + (if IsTag(t, 1) then 8 else 4) >= TWO_63
    ensures Run(Wrapping, d, i, depth) == Err(InvalidLength)
  {
    hide Run, UvarintAt, IsVarint, Value, AllValid, FlattenAll, Index;
    var inner := FlattenAll(fs);
    var j := i + |inner|;
    assert d[i..][..|inner + t|] == d[i..i + |inner| + |t|];
    TwoParts(d, i, inner, t);
    MembersPassed(Wrapping, d, i, depth, fs);
    UvarintAtSlice(d, j, j + |t|);
    VarintNotEmpty(t);
    IndexWraps(j + |t| + 8);
    IndexWraps(j + |t| + 4);
    IndexIsInt(j + |t| + 8);
    IndexIsInt(j + |t| + 4);
    OverflowStops(Wrapping, d, j, depth);
  }

  lemma IndexIsInt(x: int)
    ensures Index(Wrapping, x) < TWO_63
  {
  }

  lemma LengthAsInt(size: seq<Byte>)
    ensures Length(Wrapping, size) == if Value(size) < TWO_63 then Value(size) else Value(size) - TWO_64
  {
    hide Value;
  }

  lemma OverflowStops(a: Arith, d: Buffer, i: nat, depth: nat)
    requires i < |d| && ItemAt(a, d, i).Ok? && ItemAt(a, d, i).value.move.Leaf? && ItemAt(a, d, i).value.next < 0
    ensures Run(a, d, i, depth) == Err(InvalidLength)
  {
    hide ItemAt;
  }

  /** Wherever the loop stands: ten continuation bytes in place of a tag, or behind a tag that
    * asks for a varint, are refused as overflow.
    */
  lemma OverflowRefused(a: Arith, d: Buffer, i: nat, depth: nat, fs: seq<Field>, t: seq<Byte>, long: seq<Byte>)
    requires i <= |d| && FlattenAll(fs) + t + long <= d[i..]
    requires AllValidIn(a, fs) && (fs == [] || depth > 0)
    requires t == [] || IsTag(t, 0) || IsTag(t, 2)
    requires |long| == 10 && forall k :: 0 <= k < 10 ==> long[k] >= 0x80
    ensures Run(a, d, i, depth) == Err(IntOverflow)
  {
    hide Run, UvarintAt, IsVarint, Value, AllValidIn, FlattenAll;
    var inner := FlattenAll(fs);
    var j := i + |inner|;
    assert d[i..][..|inner + t + long|] == d[i..i + |inner| + |t| + |long|];
    Parts(d, i, inner, t, long);
    MembersPassed(a, d, i, depth, fs);
    LongVarint(d, j + |t|, long);
    if t != [] {
      UvarintAtSlice(d, j, j + |t|);
    }
    ErrorStops(a, d, j, depth);
  }

  lemma LongVarint(d: Buffer, i: nat, long: seq<Byte>)
    requires |long| == 10 && i + 10 <= |d| && d[i..i + 10] == long
    requires forall k :: 0 <= k < 10 ==> long[k] >= 0x80
    ensures UvarintAt(d, i) == Err(IntOverflow)
  {
    hide UvarintAt, PassAt, LengthAt, Value, IsVarint;
    assert forall k :: 0 <= k < 10 ==> d[i..][k] == long[k];
    ReadersByBytes(d, i);
  }

  /** Wherever the loop stands: when the input ends in front of a tag, inside it, or inside the
    * varint it asks for, the answer is an unexpected end of input.
    */
  lemma InputEnds(a: Arith, d: Buffer, i: nat, depth: nat, fs: seq<Field>, t: seq<Byte>, rest: seq<Byte>)
    requires i <= |d| && FlattenAll(fs) + t + rest == d[i..]
    requires AllValidIn(a, fs) && (fs == [] || depth > 0)
    requires t == [] || IsTag(t, 0) || IsTag(t, 2)
    requires |rest| < 10 && forall k :: 0 <= k < |rest| ==> rest[k] >= 0x80
    ensures Run(a, d, i, depth) == Err(UnexpectedEOF)
  {
    hide Run, UvarintAt, IsVarint, Value, AllValidIn, FlattenAll;
    var inner := FlattenAll(fs);
    var j := i + |inner|;
    assert d[i..] == d[i..i + |inner| + |t| + |rest|];
    Parts(d, i, inner, t, rest);
    MembersPassed(a, d, i, depth, fs);
    CutVarint(d, j + |t|, rest);
    if j >= |d| {
      NoMoreInput(a, d, j, depth);
    } else {
      if t != [] {
        UvarintAtSlice(d, j, j + |t|);
      }
      ErrorStops(a, d, j, depth);
    }
  }

  lemma CutVarint(d: Buffer, i: nat, rest: seq<Byte>)
    requires i + |rest| == |d| && d[i..i + |rest|] == rest && |rest| < 10
    requires forall k :: 0 <= k < |rest| ==> rest[k] >= 0x80
    ensures UvarintAt(d, i) == Err(UnexpectedEOF)
  {
    hide UvarintAt, PassAt, LengthAt, Value, IsVarint;
    assert forall k :: 0 <= k < |rest| ==> d[i..][k] == rest[k];
    ReadersByBytes(d, i);
  }

  lemma NoMoreInput(a: Arith, d: Buffer, i: nat, depth: nat)
    requires i >= |d|
    ensures Run(a, d, i, depth) == Err(UnexpectedEOF)
  {
  }

  /** Wherever the loop stands, wire types 6 and 7 are refused. */
  lemma UnknownWireTypeRefused(a: Arith, d: Buffer, i: nat, depth: nat, fs: seq<Field>, t: seq<Byte>, wireType: nat)
    requires i <= |d| && FlattenAll(fs) + t <= d[i..]
    requires AllValidIn(a, fs) && (fs == [] || depth > 0)
    requires IsTag(t, wireType) && wireType in {6, 7}
    ensures Run(a, d, i, depth) == Err(IllegalWireType(wireType))
  {
    hide Run, UvarintAt, IsVarint, Value, AllValidIn, FlattenAll;
    var inner := FlattenAll(fs);
    var j := i + |inner|;
    assert d[i..][..|inner + t|] == d[i..i + |inner| + |t|];
    TwoParts(d, i, inner, t);
    MembersPassed(a, d, i, depth, fs);
    UvarintAtSlice(d, j, j + |t|);
    VarintNotEmpty(t);
    ErrorStops(a, d, j, depth);
  }

  lemma MembersPassed(a: Arith, d: Buffer, i: nat, depth: nat, fs: seq<Field>)
    requires AllValidIn(a, fs) && (fs == [] || depth > 0)
    requires i + |FlattenAll(fs)| <= |d| && d[i..i + |FlattenAll(fs)|] == FlattenAll(fs)
    ensures Run(a, d, i, depth) == Run(a, d, i + |FlattenAll(fs)|, depth)
  {
    hide Run, AllValidIn;
    if fs != [] {
      RunFields(a, d, i, fs, depth);
    }
  }

  lemma VarintNotEmpty(t: seq<Byte>)
    ensures IsVarint(t) ==> |t| > 0
  {
  }

  lemma ErrorStops(a: Arith, d: Buffer, i: nat, depth: nat)
    requires i < |d| && ItemAt(a, d, i).Err?
    ensures Run(a, d, i, depth) == Err(ItemAt(a, d, i).error)
  {
    hide ItemAt;
  }

  // ----- what wrap-around can change -----

  /** The same turn in both arithmetics: equal, or refused in one as an invalid length or a
    * negative index, and far beyond any buffer in the other.
    */
  lemma ItemWraps(d: Buffer, i: nat)
    requires i <= |d|
    ensures var w, u := ItemAt(Wrapping, d, i), ItemAt(Unbounded, d, i);
            || w == u
            || (&& u.Ok? && u.value.move.Leaf? && u.value.next >= TWO_63
                && (w == Err(InvalidLength) || (w.Ok? && w.value.move.Leaf? && w.value.next < 0)))
  {
    hide UvarintAt, Value, Groups, Index, Length;
    var tag := UvarintAt(d, i);
    if tag.Ok? {
      IndexWraps(tag.value.next + 8);
      IndexWraps(tag.value.next + 4);
      var size := UvarintAt(d, tag.value.next);
      if size.Ok? {
        var bytes := d[tag.value.next..size.value.next];
        LengthWraps(bytes);
        LengthInRange(Wrapping, bytes);
        if Length(Wrapping, bytes) >= 0 {
          IndexWraps(size.value.next + Length(Wrapping, bytes));
        } else {
          UnboundedIndex(size.value.next + Length(Unbounded, bytes));
        }
      }
    }
  }

  lemma IndexWraps(x: nat)
    requires x < TWO_64
    ensures Index(Unbounded, x) == x
    ensures Index(Wrapping, x) == x || (Index(Wrapping, x) < 0 && x >= TWO_63)
  {
  }

  lemma UnboundedIndex(x: int)
    ensures Index(Unbounded, x) == x
  {
  }

  lemma LengthWraps(size: seq<Byte>)
    ensures var w, u := Length(Wrapping, size), Length(Unbounded, size);
            u >= 0 && (w == u || (w < 0 && u >= TWO_63))
  {
    hide Value;
  }

  /** The relation between the two outcomes of the loop. */
  predicate WrapsTo(w: Result<int>, u: Result<int>) {
    w == u || (w == Err(InvalidLength) && (u == Err(UnexpectedEOF) || (u.Ok? && u.value >= TWO_63)))
  }

  lemma {:induction false} RunWraps(d: Buffer, i: nat, depth: nat)
    ensures WrapsTo(Run(Wrapping, d, i, depth), Run(Unbounded, d, i, depth))
    decreases Remaining(d, i)
  {
    hide ItemAt;
    if i < |d| {
      ItemWraps(d, i);
      ItemProgress(Wrapping, d, i);
      ItemProgress(Unbounded, d, i);
      var w, u := ItemAt(Wrapping, d, i), ItemAt(Unbounded, d, i);
      if w == u && w.Ok? && w.value.next >= 0 && (w.value.move.Close? ==> depth > 0) {
        var depth' := Nesting(w.value.move, depth);
        TakeTurn(Wrapping, d, i, w.value, depth);
        TakeTurn(Unbounded, d, i, w.value, depth);
        if depth' > 0 {
          ResumeGoesOn(Wrapping, d, w.value.next, depth');
          ResumeGoesOn(Unbounded, d, w.value.next, depth');
          RunWraps(d, w.value.next, depth');
        }
      } else if w != u {
        TakeTurn(Unbounded, d, i, u.value, depth);
        BeyondEnd(Unbounded, d, u.value.next, depth);
      }
    }
  }

  lemma BeyondEnd(a: Arith, d: Buffer, i: nat, depth: nat)
    requires i >= |d|
    ensures Resume(a, d, i, depth) == if depth == 0 then Ok(i) else Err(UnexpectedEOF)
  {
  }

  lemma {:induction false} RunExtended(a: Arith, d: Buffer, e: seq<Byte>, i: nat, depth: nat)
    requires |d + e| < TWO_63
    ensures Run(a, d, i, depth).Ok? ==> Run(a, d + e, i, depth) == Run(a, d, i, depth)
    decreases Remaining(d, i)
  {
    hide ItemAt;
    if Run(a, d, i, depth).Ok? {
      TurnTaken(a, d, i, depth);
      ItemExtended(a, d, e, i);
      var item := ItemAt(a, d, i).value;
      if Nesting(item.move, depth) > 0 {
        RunExtended(a, d, e, item.next, Nesting(item.move, depth));
      }
    }
  }

  lemma ItemExtended(a: Arith, d: Buffer, e: seq<Byte>, i: nat)
    requires i <= |d| && |d + e| < TWO_63
    ensures ItemAt(a, d, i).Ok? ==> ItemAt(a, d + e, i) == ItemAt(a, d, i)
  {
    hide UvarintAt, Index, Length;
    UvarintExtended(d, e, i);
    if UvarintAt(d, i).Ok? {
      var k := UvarintAt(d, i).value.next;
      UvarintExtended(d, e, k);
      if UvarintAt(d, k).Ok? {
        var j := UvarintAt(d, k).value.next;
        assert (d + e)[k..j] == d[k..j];
      }
    }
  }

  lemma UvarintExtended(d: Buffer, e: seq<Byte>, i: nat)
    requires i <= |d|
    ensures UvarintAt(d, i).Ok? ==> UvarintAt(d + e, i) == UvarintAt(d, i)
  {
    hide IsVarint, Value;
    if UvarintAt(d, i).Ok? {
      VarintAt(d, i);
      var j := UvarintAt(d, i).value.next;
      assert (d + e)[i..j] == d[i..j];
      UvarintAtSlice(d + e, i, j);
    }
  }

  /** Appending bytes never changes a success, not even one that points past the end. */
  lemma SkipExtensionStable(d: Buffer, e: seq<Byte>)
    requires |d + e| < TWO_63
    ensures Skip(d).Ok? ==> Skip(d + e) == Skip(d)
  {
    RunExtended(Wrapping, d, e, 0, 0);
  }

  /** The bytes up to the result are all that a success inside the buffer depends on. */
  lemma SkipTight(d: Buffer, n: nat)
    requires n <= |d|
    ensures Skip(d) == Ok(n) <==> Skip(d[..n]) == Ok(n)
  {
    hide Skip, Flatten, Valid;
    assert d[..n][..n] == d[..n];
    SkipIffField(d, n);
    SkipIffField(d[..n], n);
  }

  /** A result past the end announces a field of which only payload bytes are missing: any
    * bytes that make up the length complete it.
    */
  lemma OverrunCompletes(d: Buffer, n: nat, e: seq<Byte>)
    requires Skip(d) == Ok(n) && |d| < n
    requires n <= |d + e| < TWO_63
    ensures exists f :: Valid(f) && Flatten(f) == (d + e)[..n]
  {
    hide Run;
    SkipExtensionStable(d, e);
    SkipIffField(d + e, n);
  }

  lemma ItemTruncated(a: Arith, d: Buffer, k: nat, i: nat)
    requires i <= k <= |d| && ItemAt(a, d, i).Ok?
    ensures ItemAt(a, d[..k], i) == ItemAt(a, d, i) || ItemAt(a, d[..k], i) == Err(UnexpectedEOF)
  {
    hide UvarintAt, Index, Length;
    UvarintTruncated(d, k, i);
    var j := UvarintAt(d, i).value.next;
    if j <= k && UvarintAt(d, j).Ok? {
      UvarintTruncated(d, k, j);
      var m := UvarintAt(d, j).value.next;
      if m <= k {
        assert d[..k][j..m] == d[j..m];
      }
    }
  }

  /** A field that is cut off is never taken for another one: the loop runs out of input, or
    * announces the end of the whole field, beyond the cut.
    */
  lemma {:induction false} RunTruncated(a: Arith, d: Buffer, k: nat, i: nat, depth: nat)
    requires Run(a, d, i, depth).Ok? && k < Run(a, d, i, depth).value <= |d|
    ensures Run(a, d[..k], i, depth) in {Err(UnexpectedEOF), Run(a, d, i, depth)}
    decreases Remaining(d, i)
  {
    hide Run, Resume, ItemAt;
    var c := d[..k];
    if i >= k {
      NoMoreInput(a, c, i, depth);
    } else {
      TurnTaken(a, d, i, depth);
      ItemTruncated(a, d, k, i);
      var item := ItemAt(a, d, i).value;
      if ItemAt(a, c, i).Err? {
        ErrorStops(a, c, i, depth);
      } else {
        var depth' := Nesting(item.move, depth);
        TakeTurn(a, c, i, item, depth);
        if depth' > 0 {
          ResumeGoesOn(a, c, item.next, depth');
          RunTruncated(a, d, k, item.next, depth');
        } else {
          ResumeReturns(a, c, item.next);
          ResumeReturns(a, d, item.next);
        }
      }
    }
  }

  lemma ResumeReturns(a: Arith, d: Buffer, i: nat)
    ensures Resume(a, d, i, 0) == Ok(i)
  {
  }

  /** A field cut off at `k` is an unexpected end of input, or a length beyond the cut that the
    * caller must refuse.
    */
  lemma SkipTruncated(d: Buffer, n: nat, k: nat)
    requires k < n <= |d| && Skip(d) == Ok(n)
    ensures Skip(d[..k]) in {Err(UnexpectedEOF), Ok(n)}
  {
    hide Run;
    RunTruncated(Wrapping, d, k, 0, 0);
  }

  /** No proper prefix of a skipped field is itself skipped in bounds. */
  lemma SkipPrefixFree(d: Buffer, n: nat, m: nat, k: nat)
    requires n <= |d| && Skip(d) == Ok(n)
    requires m < n
    requires Skip(d[..m]) == Ok(k)
    ensures k > m
  {
    hide Run;
    assert d[..m] + d[m..] == d;
    SkipExtensionStable(d[..m], d[m..]);
  }
}

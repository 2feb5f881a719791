/** The grammar of the wire format, as the code reads it: concrete syntax trees that keep the
  * bytes of every tag, value and length, and the byte string each tree spells.
  *
  * A closing tag need not carry the number of its opening tag, numbers inside groups are
  * free, and a varint's value is its base-128 sum modulo 2^64.
  */
module WireFormat {
  import opened Words
  import opened Varint

  datatype Field =
    | VarintField(tag: seq<Byte>, value: seq<Byte>)
    | Fixed64Field(tag: seq<Byte>, body: seq<Byte>)
    | BytesField(tag: seq<Byte>, size: seq<Byte>, body: seq<Byte>)
    | GroupField(tag: seq<Byte>, members: seq<Field>, close: seq<Byte>)
    | Fixed32Field(tag: seq<Byte>, body: seq<Byte>)

  /** A tag's low three bits are the wire type; the bits above it are the field number. */
  predicate IsTag(t: seq<Byte>, wireType: nat) {
    IsVarint(t) && Value(t) % 8 == wireType
  }

  predicate Valid(f: Field)
    decreases f, 1
  {
    match f
    case VarintField(tag, value) => IsTag(tag, 0) && IsVarint(value)
    case Fixed64Field(tag, body) => IsTag(tag, 1) && |body| == 8
    case BytesField(tag, size, body) => IsTag(tag, 2) && IsVarint(size) && Value(size) == |body|
    case GroupField(tag, members, close) => IsTag(tag, 3) && AllValid(members) && IsTag(close, 4)
    case Fixed32Field(tag, body) => IsTag(tag, 5) && |body| == 4
  }

  predicate AllValid(fs: seq<Field>)
    decreases fs, 0
  {
    fs == [] || (Valid(fs[0]) && AllValid(fs[1..]))
  }

  /** Each length prefix spells its body's length without the reduction modulo 2^64. */
  predicate SizesExact(f: Field)
    decreases f, 1
  {
    match f
    case BytesField(_, size, body) => Groups(size) == |body|
    case GroupField(_, members, _) => AllSizesExact(members)
    case _ => true
  }

  predicate AllSizesExact(fs: seq<Field>)
    decreases fs, 0
  {
    fs == [] || (SizesExact(fs[0]) && AllSizesExact(fs[1..]))
  }

  /** No length prefix, at any nesting, has ten bytes of which the last is above 1. */
  predicate NoneOverlong(f: Field)
    decreases f, 1
  {
    match f
    case BytesField(_, size, _) => !Overlong(size)
    case GroupField(_, members, _) => AllNoneOverlong(members)
    case _ => true
  }

  predicate AllNoneOverlong(fs: seq<Field>)
    decreases fs, 0
  {
    fs == [] || (NoneOverlong(fs[0]) && AllNoneOverlong(fs[1..]))
  }

  /** The encoding's rule for groups, at any nesting: the closing tag has the opening tag's
    * number. The code does not look.
    */
  predicate Matched(f: Field)
    decreases f, 1
  {
    match f
    case GroupField(tag, members, close) => Value(close) / 8 == Value(tag) / 8 && AllMatched(members)
    case _ => true
  }

  predicate AllMatched(fs: seq<Field>)
    decreases fs, 0
  {
    fs == [] || (Matched(fs[0]) && AllMatched(fs[1..]))
  }

  /** On valid fields, exact lengths are a matter of the tenth bytes alone. */
  lemma {:induction false} SizesExactIff(f: Field)
    requires Valid(f)
    ensures SizesExact(f) <==> NoneOverlong(f)
    decreases f, 1
  {
    hide IsVarint, Value, Groups, Overlong;
    match f {
      case BytesField(_, size, _) => ExactIffNotOverlong(size);
      case GroupField(_, members, _) => AllSizesExactIff(members);
      case _ =>
    }
  }

  lemma {:induction false} AllSizesExactIff(fs: seq<Field>)
    requires AllValid(fs)
    ensures AllSizesExact(fs) <==> AllNoneOverlong(fs)
    decreases fs, 0
  {
    hide Valid, SizesExact, NoneOverlong;
    if fs == [] {
    } else {
      SizesExactIff(fs[0]);
      AllSizesExactIff(fs[1..]);
    }
  }

  function Flatten(f: Field): seq<Byte>
    decreases f, 1
  {
    match f
    case VarintField(tag, value) => tag + value
    case Fixed64Field(tag, body) => tag + body
    case BytesField(tag, size, body) => tag + size + body
    case GroupField(tag, members, close) => tag + FlattenAll(members) + close
    case Fixed32Field(tag, body) => tag + body
  }

  function FlattenAll(fs: seq<Field>): seq<Byte>
    decreases fs, 0
  {
    if fs == [] then [] else Flatten(fs[0]) + FlattenAll(fs[1..])
  }

  lemma PrependField(f: Field, fs: seq<Field>, close: seq<Byte>)
    ensures FlattenAll([f] + fs) + close == Flatten(f) + (FlattenAll(fs) + close)
    ensures AllValid([f] + fs) <==> Valid(f) && AllValid(fs)
    ensures AllSizesExact([f] + fs) <==> SizesExact(f) && AllSizesExact(fs)
  {
    hide Flatten, Valid, SizesExact;
    assert ([f] + fs)[1..] == fs;
  }

  lemma GroupSpelling(tag: seq<Byte>, members: seq<Field>, close: seq<Byte>)
    ensures Flatten(GroupField(tag, members, close)) == tag + (FlattenAll(members) + close)
  {
  }

  // ----- the grammar is unambiguous -----

  /** Two varints at the front of the same bytes are the same. */
  lemma VarintsAgree(s: seq<Byte>, t: seq<Byte>, x: seq<Byte>, y: seq<Byte>)
    requires IsVarint(s) && IsVarint(t) && s + x == t + y
    ensures s == t && x == y
  {
    var all := s + x;
    assert all[..|s|] == s && all[..|t|] == t;
    VarintPrefixUnique(all, |s|);
    VarintPrefixUnique(all, |t|);
    assert all[|s|..] == x && all[|t|..] == y;
  }

  lemma SameLengthAgree(s: seq<Byte>, t: seq<Byte>, x: seq<Byte>, y: seq<Byte>)
    requires |s| == |t| && s + x == t + y
    ensures s == t && x == y
  {
    assert (s + x)[..|s|] == s && (t + y)[..|t|] == t;
    assert (s + x)[|s|..] == x && (t + y)[|t|..] == y;
  }

  /** What follows a field's tag. */
  function Payload(f: Field): seq<Byte> {
    match f
    case VarintField(_, value) => value
    case Fixed64Field(_, body) => body
    case BytesField(_, size, body) => size + body
    case GroupField(_, members, close) => FlattenAll(members) + close
    case Fixed32Field(_, body) => body
  }

  lemma TagFirst(f: Field, x: seq<Byte>)
    requires Valid(f)
    ensures Flatten(f) + x == f.tag + (Payload(f) + x) && IsVarint(f.tag)
  {
    hide IsVarint, Value;
  }

  lemma SameKind(f: Field, g: Field)
    requires Valid(f) && Valid(g) && f.tag == g.tag
    ensures f.VarintField? <==> g.VarintField?
    ensures f.Fixed64Field? <==> g.Fixed64Field?
    ensures f.BytesField? <==> g.BytesField?
    ensures f.GroupField? <==> g.GroupField?
    ensures f.Fixed32Field? <==> g.Fixed32Field?
  {
    hide IsVarint, Value;
  }

  /** A valid field is determined by the bytes it starts. */
  lemma {:induction false} FieldsAgree(f: Field, g: Field, x: seq<Byte>, y: seq<Byte>)
    requires Valid(f) && Valid(g) && Flatten(f) + x == Flatten(g) + y
    ensures f == g && x == y
    decreases f, 1
  {
    hide IsVarint, Value, Flatten;
    TagFirst(f, x);
    TagFirst(g, y);
    VarintsAgree(f.tag, g.tag, Payload(f) + x, Payload(g) + y);
    SameKind(f, g);
    match f {
      case BytesField(_, size, body) =>
        BytesAgree(size, g.size, body, g.body, x, y);
      case GroupField(_, members, close) =>
        MembersAgree(members, g.members, close, g.close, x, y);
      case VarintField(_, value) =>
        VarintsAgree(value, g.value, x, y);
      case Fixed64Field(_, body) =>
        SameLengthAgree(body, g.body, x, y);
      case Fixed32Field(_, body) =>
        SameLengthAgree(body, g.body, x, y);
    }
  }

  lemma BytesAgree(s: seq<Byte>, t: seq<Byte>, b: seq<Byte>, c: seq<Byte>, x: seq<Byte>, y: seq<Byte>)
    requires IsVarint(s) && IsVarint(t) && Value(s) == |b| && Value(t) == |c|
    requires s + b + x == t + c + y
    ensures s == t && b == c && x == y
  {
    hide IsVarint, Value;
    assert s + b + x == s + (b + x) && t + c + y == t + (c + y);
    VarintsAgree(s, t, b + x, c + y);
    SameLengthAgree(b, c, x, y);
  }

  lemma {:induction false} MembersAgree(fs: seq<Field>, gs: seq<Field>, c: seq<Byte>, e: seq<Byte>,
                                        x: seq<Byte>, y: seq<Byte>)
    requires AllValid(fs) && AllValid(gs) && IsTag(c, 4) && IsTag(e, 4)
    requires FlattenAll(fs) + c + x == FlattenAll(gs) + e + y
    ensures fs == gs && c == e && x == y
    decreases fs, 0
  {
    hide IsVarint, Value, Flatten;
    if fs == [] || gs == [] {
      MembersEndTogether(fs, gs, c, e, x, y);
      assert FlattenAll([]) + c + x == c + x && FlattenAll([]) + e + y == e + y;
      VarintsAgree(c, e, x, y);
    } else {
      var f, g := fs[0], gs[0];
      var fRest, gRest := FlattenAll(fs[1..]) + c + x, FlattenAll(gs[1..]) + e + y;
      assert FlattenAll(fs) + c + x == Flatten(f) + fRest;
      assert FlattenAll(gs) + e + y == Flatten(g) + gRest;
      FieldsAgree(f, g, fRest, gRest);
      MembersAgree(fs[1..], gs[1..], c, e, x, y);
      assert fs == [f] + fs[1..] && gs == [g] + gs[1..];
    }
  }

  /** A closing tag is no field's first tag, so neither list can end before the other. */
  lemma MembersEndTogether(fs: seq<Field>, gs: seq<Field>, c: seq<Byte>, e: seq<Byte>,
                           x: seq<Byte>, y: seq<Byte>)
    requires AllValid(fs) && AllValid(gs) && IsTag(c, 4) && IsTag(e, 4)
    requires FlattenAll(fs) + c + x == FlattenAll(gs) + e + y
    requires fs == [] || gs == []
    ensures fs == gs == []
  {
    hide IsVarint, Value, Flatten;
    assert fs == [] ==> FlattenAll(fs) + c + x == c + x;
    assert gs == [] ==> FlattenAll(gs) + e + y == e + y;
    if gs != [] {
      NoCloseFirst(gs, c, x, e, y);
    } else if fs != [] {
      NoCloseFirst(fs, e, y, c, x);
    }
  }

  lemma NoCloseFirst(gs: seq<Field>, c: seq<Byte>, x: seq<Byte>, e: seq<Byte>, y: seq<Byte>)
    requires gs != [] && AllValid(gs) && IsTag(c, 4)
    ensures c + x != FlattenAll(gs) + e + y
  {
    hide IsVarint, Value, Flatten;
    var g, tail := gs[0], FlattenAll(gs[1..]) + e + y;
    assert FlattenAll(gs) + e + y == Flatten(g) + tail;
    TagFirst(g, tail);
    if c + x == FlattenAll(gs) + e + y {
      VarintsAgree(c, g.tag, x, Payload(g) + tail);
    }
  }

  /** Every byte string is the spelling of at most one list of valid fields. */
  lemma {:induction false} ParseUnique(fs: seq<Field>, gs: seq<Field>)
    requires AllValid(fs) && AllValid(gs) && FlattenAll(fs) == FlattenAll(gs)
    ensures fs == gs
  {
    hide Flatten, Valid;
    if fs == [] || gs == [] {
      NothingIsEmpty(fs);
      NothingIsEmpty(gs);
    } else {
      FieldsAgree(fs[0], gs[0], FlattenAll(fs[1..]), FlattenAll(gs[1..]));
      ParseUnique(fs[1..], gs[1..]);
      assert fs == [fs[0]] + fs[1..] && gs == [gs[0]] + gs[1..];
    }
  }

  lemma NothingIsEmpty(fs: seq<Field>)
    requires AllValid(fs)
    ensures FlattenAll(fs) == [] <==> fs == []
  {
    if fs != [] {
      TagFirst(fs[0], []);
      assert Flatten(fs[0]) + [] == Flatten(fs[0]);
    }
  }
}

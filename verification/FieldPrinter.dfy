/** Abstract field trees, printed with the shortest tags and lengths, and what the skipper and
  * the parser make of the result. A group carries the number it is closed with, which the code
  * leaves free.
  */
module FieldPrinter {
  import opened Words
  import opened WireResult
  import opened Varint
  import opened WireFormat
  import opened FieldSkipper
  import opened MessageParser

  /** A field number is whatever leaves room for three more bits in a 64-bit tag. */
  type Number = n: nat | n < TWO_64 / 8

  datatype Node =
    | VarintNode(num: Number, value: Word)
    | Fixed64Node(num: Number, body: seq<Byte>)
    | BytesNode(num: Number, body: seq<Byte>)
    | GroupNode(num: Number, members: seq<Node>, close: Number)
    | Fixed32Node(num: Number, body: seq<Byte>)

  function Tag(num: Number, wireType: nat): seq<Byte>
    requires wireType < 8
  {
    Encoding(num * 8 + wireType)
  }

  predicate WellSized(n: Node)
    decreases n, 1
  {
    match n
    case VarintNode(_, _) => true
    case Fixed64Node(_, body) => |body| == 8
    case BytesNode(_, body) => |body| < TWO_63
    case GroupNode(_, members, _) => AllWellSized(members)
    case Fixed32Node(_, body) => |body| == 4
  }

  predicate AllWellSized(ns: seq<Node>)
    decreases ns, 0
  {
    ns == [] || (WellSized(ns[0]) && AllWellSized(ns[1..]))
  }

  function Print(n: Node): seq<Byte>
    decreases n, 1
  {
    match n
    case VarintNode(num, value) => Tag(num, 0) + Encoding(value)
    case Fixed64Node(num, body) => Tag(num, 1) + body
    case BytesNode(num, body) => Tag(num, 2) + Encoding(|body|) + body
    case GroupNode(num, members, close) => Tag(num, 3) + PrintAll(members) + Tag(close, 4)
    case Fixed32Node(num, body) => Tag(num, 5) + body
  }

  function PrintAll(ns: seq<Node>): seq<Byte>
    decreases ns, 0
  {
    if ns == [] then [] else Print(ns[0]) + PrintAll(ns[1..])
  }

  // ----- the concrete tree that a printed node spells -----

  function Concrete(n: Node): Field
    decreases n, 1
  {
    match n
    case VarintNode(num, value) => VarintField(Tag(num, 0), Encoding(value))
    case Fixed64Node(num, body) => Fixed64Field(Tag(num, 1), body)
    case BytesNode(num, body) => BytesField(Tag(num, 2), Encoding(|body|), body)
    case GroupNode(num, members, close) => GroupField(Tag(num, 3), ConcreteAll(members), Tag(close, 4))
    case Fixed32Node(num, body) => Fixed32Field(Tag(num, 5), body)
  }

  function ConcreteAll(ns: seq<Node>): (fs: seq<Field>)
    decreases ns, 0
  {
    if ns == [] then [] else [Concrete(ns[0])] + ConcreteAll(ns[1..])
  }

  lemma TagIsTag(num: Number, wireType: nat)
    requires wireType < 8
    ensures IsTag(Tag(num, wireType), wireType) && Value(Tag(num, wireType)) == num * 8 + wireType
  {
    hide Encoding, IsVarint, Value, Sov;
    EncodingIsVarint(num * 8 + wireType);
  }

  lemma SizeIsExact(n: nat)
    requires n < TWO_63
    ensures IsVarint(Encoding(n)) && Value(Encoding(n)) == n == Groups(Encoding(n))
  {
    hide Encoding, IsVarint, Value, Sov, Groups;
    EncodingIsVarint(n);
    EncodingGroups(n);
  }

  /** A printed tree is a field of the grammar, and none of its lengths loses bits. */
  lemma {:induction false} ConcreteValid(n: Node)
    requires WellSized(n)
    ensures Valid(Concrete(n)) && SizesExact(Concrete(n)) && Flatten(Concrete(n)) == Print(n)
    decreases n, 1
  {
    hide Tag, Encoding, IsVarint, Value, Groups;
    match n {
      case VarintNode(num, value) =>
        TagIsTag(num, 0);
        EncodingIsVarint(value);
      case Fixed64Node(num, body) =>
        TagIsTag(num, 1);
      case BytesNode(num, body) =>
        TagIsTag(num, 2);
        SizeIsExact(|body|);
      case GroupNode(num, members, close) =>
        TagIsTag(num, 3);
        TagIsTag(close, 4);
        ConcreteAllValid(members);
      case Fixed32Node(num, body) =>
        TagIsTag(num, 5);
    }
  }

  lemma {:induction false} ConcreteAllValid(ns: seq<Node>)
    requires AllWellSized(ns)
    ensures AllValid(ConcreteAll(ns)) && AllSizesExact(ConcreteAll(ns))
    ensures FlattenAll(ConcreteAll(ns)) == PrintAll(ns)
    decreases ns, 0
  {
    hide Valid, SizesExact, Flatten, Concrete, Print;
    if ns == [] {
    } else {
      ConcreteValid(ns[0]);
      ConcreteAllValid(ns[1..]);
      assert ConcreteAll(ns)[1..] == ConcreteAll(ns[1..]);
    }
  }

  /** A printed field, whatever follows it, is skipped in exactly its own length. */
  lemma PrintedFieldSkipped(n: Node, rest: seq<Byte>)
    requires WellSized(n) && |Print(n) + rest| < TWO_63
    ensures Skip(Print(n) + rest) == Ok(|Print(n)|)
  {
    hide Print, Concrete, Valid, Flatten, Run;
    ConcreteValid(n);
    var d: Buffer := Print(n) + rest;
    assert d[0..|Print(n)|] == Print(n);
    RunField(Wrapping, d, 0, Concrete(n), 0);
    assert Resume(Wrapping, d, |Print(n)|, 0) == Ok(|Print(n)|);
  }

  /** The low 32 bits of the number lie in 1..2^31-1. */
  predicate NumberAccepted(n: Node) {
    1 <= n.num % TWO_32 <= 0x7FFF_FFFF
  }

  predicate AllAccepted(ns: seq<Node>) {
    ns == [] || (NumberAccepted(ns[0]) && AllAccepted(ns[1..]))
  }

  lemma NumberOfNode(n: Node)
    ensures LegalNumber(Concrete(n)) <==> NumberAccepted(n)
  {
    hide Encoding, IsVarint, Value, Groups, Tag;
    match n {
      case VarintNode(num, _) => TagIsTag(num, 0);
      case Fixed64Node(num, _) => TagIsTag(num, 1);
      case BytesNode(num, _) => TagIsTag(num, 2);
      case GroupNode(num, _, _) => TagIsTag(num, 3);
      case Fixed32Node(num, _) => TagIsTag(num, 5);
    }
  }

  lemma {:induction false} LegalIffAccepted(ns: seq<Node>)
    ensures AllLegal(ConcreteAll(ns)) <==> AllAccepted(ns)
  {
    hide LegalNumber, NumberAccepted, Concrete;
    if ns == [] {
    } else {
      NumberOfNode(ns[0]);
      LegalIffAccepted(ns[1..]);
      assert ConcreteAll(ns)[1..] == ConcreteAll(ns[1..]);
    }
  }

  /** Any concatenation of printed fields is accepted exactly when the low 32 bits of every
    * top-level number lie in 1..2^31-1.
    */
  lemma PrintedMessageAccepted(ns: seq<Node>)
    requires AllWellSized(ns) && |PrintAll(ns)| < TWO_63
    ensures Unmarshal(Wrapping, PrintAll(ns)).Ok? <==> AllAccepted(ns)
  {
    hide Unmarshal, PrintAll, ConcreteAll, AllValid, FlattenAll, AllLegal, AllAccepted, AllSizesExact;
    var fs := ConcreteAll(ns);
    ConcreteAllValid(ns);
    LegalIffAccepted(ns);
    UnmarshalIffMessage(Wrapping, PrintAll(ns));
    assert AllValidIn(Wrapping, fs);
    if gs :| AllValidIn(Wrapping, gs) && AllLegal(gs) && FlattenAll(gs) == PrintAll(ns) {
      ParseUnique(fs, gs);
    }
  }

  /** In particular, numbers from 1 to 2^31 - 1 are always accepted. */
  lemma SmallNumbersAccepted(ns: seq<Node>)
    requires AllWellSized(ns) && |PrintAll(ns)| < TWO_63
    requires forall i :: 0 <= i < |ns| ==> 1 <= ns[i].num <= 0x7FFF_FFFF
    ensures Unmarshal(Wrapping, PrintAll(ns)).Ok?
  {
    hide Unmarshal, PrintAll;
    SmallNumbersPositive(ns);
    PrintedMessageAccepted(ns);
  }

  lemma {:induction false} SmallNumbersPositive(ns: seq<Node>)
    requires forall i :: 0 <= i < |ns| ==> 1 <= ns[i].num <= 0x7FFF_FFFF
    ensures AllAccepted(ns)
  {
    if ns == [] {
    } else {
      SmallNumbersPositive(ns[1..]);
    }
  }

  // ----- closing numbers -----

  /** Every group, at any nesting, is closed with the number it was opened with. */
  predicate Closed(n: Node)
    decreases n, 1
  {
    n.GroupNode? ==> n.close == n.num && AllClosed(n.members)
  }

  predicate AllClosed(ns: seq<Node>)
    decreases ns, 0
  {
    ns == [] || (Closed(ns[0]) && AllClosed(ns[1..]))
  }

  lemma {:induction false} MatchedIffClosed(n: Node)
    ensures Matched(Concrete(n)) <==> Closed(n)
    decreases n, 1
  {
    hide Tag, Value;
    if n.GroupNode? {
      TagIsTag(n.num, 3);
      TagIsTag(n.close, 4);
      AllMatchedIffClosed(n.members);
    }
  }

  lemma {:induction false} AllMatchedIffClosed(ns: seq<Node>)
    ensures AllMatched(ConcreteAll(ns)) <==> AllClosed(ns)
    decreases ns, 0
  {
    hide Matched, Closed, Concrete;
    if ns == [] {
    } else {
      MatchedIffClosed(ns[0]);
      AllMatchedIffClosed(ns[1..]);
      assert ConcreteAll(ns)[1..] == ConcreteAll(ns[1..]);
    }
  }

  /** The code's verdict on a printed message does not depend on the closing numbers; the
    * encoding's rule for groups does, on all of them.
    */
  lemma PrintedMessageMatched(ns: seq<Node>)
    requires AllWellSized(ns) && |PrintAll(ns)| < TWO_63
    ensures IsMatchedMessage(PrintAll(ns)) <==> Unmarshal(Wrapping, PrintAll(ns)).Ok? && AllClosed(ns)
  {
    hide Unmarshal, PrintAll, ConcreteAll, AllValid, FlattenAll, AllLegal, AllAccepted, AllMatched, AllClosed;
    var fs := ConcreteAll(ns);
    ConcreteAllValid(ns);
    LegalIffAccepted(ns);
    AllMatchedIffClosed(ns);
    PrintedMessageAccepted(ns);
    if AllAccepted(ns) {
      MatchedIff(PrintAll(ns), fs);
    } else {
      LaxIffUnmatched(PrintAll(ns));
    }
  }

  // ----- printing loses nothing -----

  lemma TagsAgree(m: Number, n: Number, wireType: nat)
    requires wireType < 8 && Tag(m, wireType) == Tag(n, wireType)
    ensures m == n
  {
    TagIsTag(m, wireType);
    TagIsTag(n, wireType);
  }

  lemma EncodingsAgree(v: Word, w: Word)
    requires Encoding(v) == Encoding(w)
    ensures v == w
  {
    EncodingGroups(v);
    EncodingGroups(w);
  }

  lemma {:induction false} ConcreteInjective(m: Node, n: Node)
    requires Concrete(m) == Concrete(n)
    ensures m == n
    decreases m, 1
  {
    hide Tag, Encoding;
    match m {
      case VarintNode(num, value) =>
        TagsAgree(num, n.num, 0);
        EncodingsAgree(value, n.value);
      case Fixed64Node(num, _) =>
        TagsAgree(num, n.num, 1);
      case BytesNode(num, _) =>
        TagsAgree(num, n.num, 2);
      case GroupNode(num, members, close) =>
        TagsAgree(num, n.num, 3);
        TagsAgree(close, n.close, 4);
        ConcreteAllInjective(members, n.members);
      case Fixed32Node(num, _) =>
        TagsAgree(num, n.num, 5);
    }
  }

  lemma {:induction false} ConcreteAllInjective(ms: seq<Node>, ns: seq<Node>)
    requires ConcreteAll(ms) == ConcreteAll(ns)
    ensures ms == ns
    decreases ms, 0
  {
    hide Concrete;
    if ms == [] || ns == [] {
      assert |ConcreteAll(ms)| == 0 <==> ms == [];
      assert |ConcreteAll(ns)| == 0 <==> ns == [];
    } else {
      assert ConcreteAll(ms)[0] == Concrete(ms[0]) && ConcreteAll(ms)[1..] == ConcreteAll(ms[1..]);
      assert ConcreteAll(ns)[0] == Concrete(ns[0]) && ConcreteAll(ns)[1..] == ConcreteAll(ns[1..]);
      ConcreteInjective(ms[0], ns[0]);
      ConcreteAllInjective(ms[1..], ns[1..]);
      assert ms == [ms[0]] + ms[1..] && ns == [ns[0]] + ns[1..];
    }
  }

  /** Different trees never print the same bytes. */
  lemma PrintInjective(ms: seq<Node>, ns: seq<Node>)
    requires AllWellSized(ms) && AllWellSized(ns)
    ensures PrintAll(ms) == PrintAll(ns) ==> ms == ns
  {
    hide PrintAll, ConcreteAll, AllValid, FlattenAll;
    if PrintAll(ms) == PrintAll(ns) {
      ConcreteAllValid(ms);
      ConcreteAllValid(ns);
      ParseUnique(ConcreteAll(ms), ConcreteAll(ns));
      ConcreteAllInjective(ms, ns);
    }
  }
}

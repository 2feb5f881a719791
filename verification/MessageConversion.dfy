/** `toContractMsgInitiateTxData`: rebuilding a transaction message from the Go types of the
  * Cosmos side as the contract's types, and what that does to who is authorized.
  */
module MessageConversion {
  import opened Words
  import opened Options
  import opened SignerAuthorization

  // ----- the Go side: enums are `int32`, an `Any` may be nil -----

  datatype GoAuthType = GoAuthType(mode: Int32, option: Option<Any>)
  datatype GoAccount = GoAccount(id: seq<Byte>, authType: GoAuthType)
  datatype GoContractTransaction = GoContractTransaction(
    crossChainChannel: Option<Any>, signers: seq<GoAccount>, callInfo: seq<Byte>)
  datatype Height = Height(revisionNumber: Word, revisionHeight: Word)
  datatype MsgInitiateTx = MsgInitiateTx(
    chainId: string, nonce: Word, commitProtocol: Int32,
    contractTransactions: seq<GoContractTransaction>, signers: seq<GoAccount>,
    timeoutHeight: Height, timeoutTimestamp: Word)

  // ----- the contract's side: enums are `uint8`, the conversion leaves two fields zero -----

  datatype ContractTransactionData = ContractTransactionData(
    crossChainChannel: Any, signers: seq<Account>, callInfo: seq<Byte>,
    returnValue: seq<Byte>, links: seq<nat>)
  datatype MsgInitiateTxData = MsgInitiateTxData(
    chainId: string, nonce: Word, commitProtocol: Byte,
    contractTransactions: seq<ContractTransactionData>, signers: seq<Account>,
    timeoutHeight: Height, timeoutTimestamp: Word)

  // ----- the conversion, element by element -----

  /** `uint8(x)` keeps the low byte. */
  function ToUint8(x: Int32): Byte {
    x % 0x100
  }

  function ToContractAny(a: Option<Any>): Any {
    match a
    case None => Any("", [])
    case Some(any) => any
  }

  function ToAccount(s: GoAccount): Account {
    Account(s.id, AuthType(ToUint8(s.authType.mode), ToContractAny(s.authType.option)))
  }

  function ToAccounts(signers: seq<GoAccount>): (accounts: seq<Account>)
    ensures |accounts| == |signers|
  {
    seq(|signers|, i requires 0 <= i < |signers| => ToAccount(signers[i]))
  }

  function ToTransaction(t: GoContractTransaction): ContractTransactionData {
    ContractTransactionData(ToContractAny(t.crossChainChannel), ToAccounts(t.signers), t.callInfo, [], [])
  }

  function ToTransactions(ts: seq<GoContractTransaction>): (data: seq<ContractTransactionData>)
    ensures |data| == |ts|
  {
    seq(|ts|, i requires 0 <= i < |ts| => ToTransaction(ts[i]))
  }

  function ToData(msg: MsgInitiateTx): MsgInitiateTxData {
    MsgInitiateTxData(
      msg.chainId, msg.nonce, ToUint8(msg.commitProtocol),
      ToTransactions(msg.contractTransactions), ToAccounts(msg.signers),
      msg.timeoutHeight, msg.timeoutTimestamp)
  }

  // ----- the conversion, field by field -----

  /** The same `Any`, or the empty one for nil. */
  predicate SameAny(a: Option<Any>, b: Any) {
    match a
    case Some(any) => b.typeUrl == any.typeUrl && b.value == any.value
    case None => b.typeUrl == "" && b.value == []
  }

  /** The same enum value if it fits in a byte, and its low byte in any case. */
  predicate SameEnum(x: Int32, y: Byte) {
    (0 <= x <= 255 ==> y == x) && (x - y) % 256 == 0
  }

  predicate SameSigner(s: GoAccount, t: Account) {
    && t.id == s.id
    && SameEnum(s.authType.mode, t.authType.mode)
    && SameAny(s.authType.option, t.authType.option)
  }

  predicate SameSigners(s: seq<GoAccount>, t: seq<Account>) {
    |t| == |s| && forall i :: 0 <= i < |s| ==> SameSigner(s[i], t[i])
  }

  predicate SameTransaction(t: GoContractTransaction, d: ContractTransactionData) {
    && SameAny(t.crossChainChannel, d.crossChainChannel)
    && SameSigners(t.signers, d.signers)
    && d.callInfo == t.callInfo
    && d.returnValue == [] && d.links == []
  }

  predicate SameMessage(msg: MsgInitiateTx, data: MsgInitiateTxData) {
    && data.chainId == msg.chainId
    && data.nonce == msg.nonce
    && SameEnum(msg.commitProtocol, data.commitProtocol)
    && |data.contractTransactions| == |msg.contractTransactions|
    && (forall k :: 0 <= k < |msg.contractTransactions| ==>
          SameTransaction(msg.contractTransactions[k], data.contractTransactions[k]))
    && SameSigners(msg.signers, data.signers)
    && data.timeoutHeight.revisionNumber == msg.timeoutHeight.revisionNumber
    && data.timeoutHeight.revisionHeight == msg.timeoutHeight.revisionHeight
    && data.timeoutTimestamp == msg.timeoutTimestamp
  }

  lemma SignersKept(s: seq<GoAccount>)
    ensures SameSigners(s, ToAccounts(s))
  {
    forall i | 0 <= i < |s|
      ensures SameSigner(s[i], ToAccounts(s)[i])
    {
      assert ToAccounts(s)[i] == ToAccount(s[i]);
    }
  }

  /** Every field of the message arrives where the contract expects it. */
  lemma MessageKept(msg: MsgInitiateTx)
    ensures SameMessage(msg, ToData(msg))
  {
    hide SameSigners, ToAccounts;
    SignersKept(msg.signers);
    forall k | 0 <= k < |msg.contractTransactions|
      ensures SameTransaction(msg.contractTransactions[k], ToData(msg).contractTransactions[k])
    {
      SignersKept(msg.contractTransactions[k].signers);
    }
  }

  /** And the fields determine the data, so nothing else can come out. */
  lemma FieldsDetermine(msg: MsgInitiateTx, data: MsgInitiateTxData)
    requires SameMessage(msg, data)
    ensures data == ToData(msg)
  {
    SignersDetermined(msg.signers, data.signers);
    var ts, ds := msg.contractTransactions, data.contractTransactions;
    forall k | 0 <= k < |ts|
      ensures ds[k] == ToTransactions(ts)[k]
    {
      SignersDetermined(ts[k].signers, ds[k].signers);
    }
    assert ds == ToTransactions(ts);
  }

  lemma SignersDetermined(s: seq<GoAccount>, t: seq<Account>)
    requires SameSigners(s, t)
    ensures t == ToAccounts(s)
  {
    forall i | 0 <= i < |s|
      ensures t[i] == ToAccounts(s)[i]
    {
      assert SameSigner(s[i], t[i]);
    }
  }

  method ToContractMsgInitiateTxData(msg: MsgInitiateTx) returns (data: MsgInitiateTxData)
    ensures data == ToData(msg)
    ensures SameMessage(msg, data)
  {
    MessageKept(msg);
    var contractSigners: seq<Account> := [];
    for i := 0 to |msg.signers|
      invariant contractSigners == ToAccounts(msg.signers[..i])
    {
      var s := msg.signers[i];
      contractSigners := contractSigners
        + [Account(s.id, AuthType(ToUint8(s.authType.mode), ToContractAny(s.authType.option)))];
    }
    assert msg.signers[..|msg.signers|] == msg.signers;

    var contractTxs: seq<ContractTransactionData> := [];
    for i := 0 to |msg.contractTransactions|
      invariant contractTxs == ToTransactions(msg.contractTransactions[..i])
    {
      var ctx := msg.contractTransactions[i];
      var ctxSigners: seq<Account> := [];
      for j := 0 to |ctx.signers|
        invariant ctxSigners == ToAccounts(ctx.signers[..j])
      {
        var s := ctx.signers[j];
        ctxSigners := ctxSigners
          + [Account(s.id, AuthType(ToUint8(s.authType.mode), ToContractAny(s.authType.option)))];
      }
      assert ctx.signers[..|ctx.signers|] == ctx.signers;
      contractTxs := contractTxs
        + [ContractTransactionData(ToContractAny(ctx.crossChainChannel), ctxSigners, ctx.callInfo, [], [])];
    }
    assert msg.contractTransactions[..|msg.contractTransactions|] == msg.contractTransactions;

    data := MsgInitiateTxData(msg.chainId, msg.nonce, ToUint8(msg.commitProtocol), contractTxs, contractSigners,
                              msg.timeoutHeight, msg.timeoutTimestamp);
  }

  // ----- what the conversion keeps -----

  /** A signer the contract's types can hold as it is. */
  predicate Faithful(s: GoAccount) {
    0 <= s.authType.mode < 0x100 && s.authType.option.Some?
  }

  predicate AllFaithful(signers: seq<GoAccount>) {
    forall i :: 0 <= i < |signers| ==> Faithful(signers[i])
  }

  predicate FaithfulMessage(msg: MsgInitiateTx) {
    && 0 <= msg.commitProtocol < 0x100
    && AllFaithful(msg.signers)
    && forall k :: 0 <= k < |msg.contractTransactions| ==>
         msg.contractTransactions[k].crossChainChannel.Some? && AllFaithful(msg.contractTransactions[k].signers)
  }

  lemma AccountsInjective(x: seq<GoAccount>, y: seq<GoAccount>)
    requires AllFaithful(x) && AllFaithful(y) && ToAccounts(x) == ToAccounts(y)
    ensures x == y
  {
    assert |x| == |ToAccounts(x)| == |y|;
    forall i | 0 <= i < |x|
      ensures x[i] == y[i]
    {
      assert ToAccounts(x)[i] == ToAccount(x[i]) && ToAccounts(y)[i] == ToAccount(y[i]);
    }
  }

  /** Nothing else is lost: messages with enums that fit and no nil `Any` can be told apart
    * after the conversion, down to the order of both levels of signers.
    */
  lemma ConversionInjective(m: MsgInitiateTx, n: MsgInitiateTx)
    requires FaithfulMessage(m) && FaithfulMessage(n)
    ensures ToData(m) == ToData(n) ==> m == n
  {
    if ToData(m) == ToData(n) {
      AccountsInjective(m.signers, n.signers);
      var ms, ns := m.contractTransactions, n.contractTransactions;
      assert |ms| == |ToTransactions(ms)| == |ns|;
      forall k | 0 <= k < |ms|
        ensures ms[k] == ns[k]
      {
        assert ToTransactions(ms)[k] == ToTransaction(ms[k]) && ToTransactions(ns)[k] == ToTransaction(ns[k]);
        AccountsInjective(ms[k].signers, ns[k].signers);
      }
    }
  }

  // ----- authority before and after -----

  /** A nil option has no type URL. */
  function TypeUrlOf(s: GoAccount): string {
    if s.authType.option.Some? then s.authType.option.value.typeUrl else ""
  }

  /** The authorization rule applied to the message as it was written, with its full mode. */
  predicate GoGrants<D(==)>(c: Setting<D>, s: GoAccount, from: Address) {
    && |s.id| == 20 && BigEndian(s.id) == from
    && ModeGrants(c, s.authType.mode, TypeUrlOf(s))
  }

  predicate GoAuthorizes<D(==)>(c: Setting<D>, signers: seq<GoAccount>, from: Address) {
    exists i :: 0 <= i < |signers| && GoGrants(c, signers[i], from)
  }

  predicate ModeFits(s: GoAccount) {
    0 <= s.authType.mode < 0x100
  }

  /** The mode does not fit in a byte, and its low byte happens to authorize. */
  predicate TruncationGrants<D(==)>(c: Setting<D>, s: GoAccount) {
    && |s.id| == 20 && !ModeFits(s)
    && ModeGrants(c, ToUint8(s.authType.mode), TypeUrlOf(s))
  }

  lemma GrantAfter<D>(c: Setting<D>, s: GoAccount, from: Address)
    ensures Grants(c, ToAccount(s), from) <==>
              (GoGrants(c, s, from) || (TruncationGrants(c, s) && BigEndian(s.id) == from))
  {
  }

  /** Exactly who is authorized after the conversion: whoever was before, and the owners of
    * signers whose truncated mode authorizes.
    */
  lemma AuthorityAfter<D>(c: Setting<D>, signers: seq<GoAccount>, from: Address)
    ensures Authorizes(c, ToAccounts(signers), from) <==>
              (GoAuthorizes(c, signers, from)
               || exists i :: 0 <= i < |signers| && TruncationGrants(c, signers[i]) && BigEndian(signers[i].id) == from)
  {
    var accounts := ToAccounts(signers);
    forall i | 0 <= i < |signers|
      ensures Grants(c, accounts[i], from) <==>
                (GoGrants(c, signers[i], from) || (TruncationGrants(c, signers[i]) && BigEndian(signers[i].id) == from))
    {
      GrantAfter(c, signers[i], from);
    }
    if i :| 0 <= i < |signers| && GoGrants(c, signers[i], from) {
      assert Grants(c, accounts[i], from);
    }
    if i :| 0 <= i < |signers| && TruncationGrants(c, signers[i]) && BigEndian(signers[i].id) == from {
      assert Grants(c, accounts[i], from);
    }
    if i :| 0 <= i < |accounts| && Grants(c, accounts[i], from) {
      assert GoGrants(c, signers[i], from) || TruncationGrants(c, signers[i]);
    }
  }

  lemma {:induction false} BigEndianBound(id: seq<Byte>)
    ensures BigEndian(id) < Pow2(8 * |id|)
  {
    if id == [] {
    } else {
      var n := |id| - 1;
      BigEndianBound(id[..n]);
      EightMore(8 * n);
    }
  }

  /** A conversion preserves authority over every address exactly when each signer whose
    * truncated mode authorizes has an id that was authorized anyway.
    */
  lemma PreservedIff<D>(c: Setting<D>, signers: seq<GoAccount>)
    ensures (forall from :: Authorizes(c, ToAccounts(signers), from) == GoAuthorizes(c, signers, from))
       <==> (forall i :: 0 <= i < |signers| && TruncationGrants(c, signers[i]) ==>
               exists j :: 0 <= j < |signers| && signers[j].id == signers[i].id && ModeFits(signers[j])
                        && ModeGrants(c, signers[j].authType.mode, TypeUrlOf(signers[j])))
  {
    if forall from :: Authorizes(c, ToAccounts(signers), from) == GoAuthorizes(c, signers, from) {
      forall i | 0 <= i < |signers| && TruncationGrants(c, signers[i])
        ensures exists j :: 0 <= j < |signers| && signers[j].id == signers[i].id && ModeFits(signers[j])
                         && ModeGrants(c, signers[j].authType.mode, TypeUrlOf(signers[j]))
      {
        var from := AddressOf(signers[i].id);
        AuthorityAfter(c, signers, from);
        var j :| 0 <= j < |signers| && GoGrants(c, signers[j], from);
        BigEndianInjective(signers[j].id, signers[i].id);
      }
    }
    if forall i :: 0 <= i < |signers| && TruncationGrants(c, signers[i]) ==>
         exists j :: 0 <= j < |signers| && signers[j].id == signers[i].id && ModeFits(signers[j])
                  && ModeGrants(c, signers[j].authType.mode, TypeUrlOf(signers[j])) {
      forall from: Address
        ensures Authorizes(c, ToAccounts(signers), from) == GoAuthorizes(c, signers, from)
      {
        AuthorityAfter(c, signers, from);
        if i :| 0 <= i < |signers| && TruncationGrants(c, signers[i]) && BigEndian(signers[i].id) == from {
          var j :| 0 <= j < |signers| && signers[j].id == signers[i].id && ModeFits(signers[j])
                && ModeGrants(c, signers[j].authType.mode, TypeUrlOf(signers[j]));
          assert GoGrants(c, signers[j], from);
        }
      }
    }
  }

  function AddressOf(id: seq<Byte>): Address
    requires |id| == 20
  {
    BigEndianBound(id);
    TwentyBytes();
    BigEndian(id)
  }

  lemma TwentyBytes()
    ensures Pow2(160) == 0x1_0000_0000_0000_0000_0000_0000_0000_0000_0000_0000
  {
    WordPowers();
    hide Pow2;
    EightMore(64);
    EightMore(72);
    EightMore(80);
    EightMore(88);
    EightMore(96);
    EightMore(104);
    EightMore(112);
    EightMore(120);
    EightMore(128);
    EightMore(136);
    EightMore(144);
    EightMore(152);
  }

  /** Every signer list of the message has modes that fit in a byte. */
  predicate ModesFit(msg: MsgInitiateTx) {
    && (forall i :: 0 <= i < |msg.signers| ==> ModeFits(msg.signers[i]))
    && (forall k :: 0 <= k < |msg.contractTransactions| ==>
          forall i :: 0 <= i < |msg.contractTransactions[k].signers| ==>
            ModeFits(msg.contractTransactions[k].signers[i]))
  }

  lemma FittingListPreserved<D>(c: Setting<D>, signers: seq<GoAccount>, from: Address)
    requires forall i :: 0 <= i < |signers| ==> ModeFits(signers[i])
    ensures Authorizes(c, ToAccounts(signers), from) <==> GoAuthorizes(c, signers, from)
  {
    AuthorityAfter(c, signers, from);
  }

  /** With modes that fit, the contract judges the message and each of its transactions, at the
    * same position, exactly as they were written.
    */
  lemma ConversionPreservesAuthority<D>(c: Setting<D>, msg: MsgInitiateTx, from: Address)
    requires ModesFit(msg)
    ensures Authorizes(c, ToData(msg).signers, from) <==> GoAuthorizes(c, msg.signers, from)
    ensures |ToData(msg).contractTransactions| == |msg.contractTransactions|
    ensures forall k :: 0 <= k < |msg.contractTransactions| ==>
              (Authorizes(c, ToData(msg).contractTransactions[k].signers, from)
               <==> GoAuthorizes(c, msg.contractTransactions[k].signers, from))
  {
    FittingListPreserved(c, msg.signers, from);
    forall k | 0 <= k < |msg.contractTransactions|
      ensures Authorizes(c, ToData(msg).contractTransactions[k].signers, from)
         <==> GoAuthorizes(c, msg.contractTransactions[k].signers, from)
    {
      FittingListPreserved(c, msg.contractTransactions[k].signers, from);
    }
  }

  /** Without that, authority can appear: a mode 256 above the local one is truncated to it. */
  lemma TruncatedModeGrants<D>(c: Setting<D>, id: seq<Byte>)
    requires |id| == 20
    ensures var s := GoAccount(id, GoAuthType(c.local + 0x100, None));
            !GoAuthorizes(c, [s], AddressOf(id)) && Authorizes(c, ToAccounts([s]), AddressOf(id))
  {
    var s := GoAccount(id, GoAuthType(c.local + 0x100, None));
    assert Grants(c, ToAccounts([s])[0], AddressOf(id));
  }
}

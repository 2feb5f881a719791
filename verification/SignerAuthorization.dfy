/** `MyERC20TransferModule._authorize`: does some signer of the cross-chain context speak for the
  * address whose tokens move?
  */
module SignerAuthorization {
  import opened Words

  type Address = a: nat | a < 0x1_0000_0000_0000_0000_0000_0000_0000_0000_0000_0000

  datatype Any = Any(typeUrl: string, value: seq<Byte>)
  datatype AuthType = AuthType(mode: Byte, option: Any)
  datatype Account = Account(id: seq<Byte>, authType: AuthType)

  const EXTENSION_TYPE_URL := "/extension.types.SampleAuthExtension"

  /** What the contract gets from elsewhere: the hash function and the numbers its enum gives
    * to the two modes it knows. `D` is the type of digests.
    */
  datatype Setting<!D> = Setting(hash: string -> D, local: Byte, extension: Byte)

  /** `bytes20(id)` read as an unsigned integer, most significant byte first. */
  function BigEndian(id: seq<Byte>): nat {
    if id == [] then 0 else 0x100 * BigEndian(id[..|id| - 1]) + id[|id| - 1]
  }

  /** The mode authorizes, for an extension only under the expected type URL. */
  predicate ModeGrants<D(==)>(c: Setting<D>, mode: int, typeUrl: string) {
    mode == c.local || (mode == c.extension && c.hash(typeUrl) == c.hash(EXTENSION_TYPE_URL))
  }

  predicate Grants<D(==)>(c: Setting<D>, s: Account, from: Address) {
    |s.id| == 20 && BigEndian(s.id) == from && ModeGrants(c, s.authType.mode, s.authType.option.typeUrl)
  }

  predicate Authorizes<D(==)>(c: Setting<D>, signers: seq<Account>, from: Address) {
    exists i :: 0 <= i < |signers| && Grants(c, signers[i], from)
  }

  /** The scan; `from` has been decoded from the call info. False stands for the final revert. */
  method Authorize<D(==)>(c: Setting<D>, signers: seq<Account>, from: Address) returns (authorized: bool)
    ensures authorized <==> Authorizes(c, signers, from)
    ensures authorized <==>
              exists i :: 0 <= i < |signers| && |signers[i].id| == 20 && BigEndian(signers[i].id) == from &&
                (signers[i].authType.mode == c.local ||
                 (signers[i].authType.mode == c.extension &&
                  c.hash(signers[i].authType.option.typeUrl) == c.hash("/extension.types.SampleAuthExtension")))
  {
    authorized := false;
    for i := 0 to |signers|
      invariant !authorized
      invariant forall j :: 0 <= j < i ==> !Grants(c, signers[j], from)
    {
      var id := signers[i].id;
      if |id| == 20 && BigEndian(id) == from {
        var mode := signers[i].authType.mode;
        if mode == c.local {
          authorized := true;
          break;
        }
        if mode == c.extension {
          if c.hash(signers[i].authType.option.typeUrl) != c.hash(EXTENSION_TYPE_URL) {
            continue;
          }
          authorized := true;
          break;
        }
      }
    }
  }

  /** A signer whose id has another length, or spells another address, decides nothing. */
  predicate SpeaksFor(s: Account, from: Address) {
    |s.id| == 20 && BigEndian(s.id) == from
  }

  /** One local signer for the address is enough, whatever its option says. */
  lemma LocalSignerAuthorizes<D>(c: Setting<D>, signers: seq<Account>, from: Address, i: nat)
    requires i < |signers| && SpeaksFor(signers[i], from) && signers[i].authType.mode == c.local
    ensures Authorizes(c, signers, from)
  {
    assert Grants(c, signers[i], from);
  }

  /** So is one extension signer with the expected type URL. */
  lemma ExpectedExtensionAuthorizes<D>(c: Setting<D>, signers: seq<Account>, from: Address, i: nat)
    requires i < |signers| && SpeaksFor(signers[i], from) && signers[i].authType.mode == c.extension
    requires signers[i].authType.option.typeUrl == "/extension.types.SampleAuthExtension"
    ensures Authorizes(c, signers, from)
  {
    assert Grants(c, signers[i], from);
  }

  /** Extension signers with a type URL of another hash, and signers of any third mode, never
    * authorize: if all signers for the address are such, the scan reverts.
    */
  lemma OthersRefused<D>(c: Setting<D>, signers: seq<Account>, from: Address)
    requires c.local != c.extension
    requires forall i :: 0 <= i < |signers| && SpeaksFor(signers[i], from) ==>
               || signers[i].authType.mode !in {c.local, c.extension}
               || (&& signers[i].authType.mode == c.extension
                   && c.hash(signers[i].authType.option.typeUrl) != c.hash("/extension.types.SampleAuthExtension"))
    ensures !Authorizes(c, signers, from)
  {
    forall i | 0 <= i < |signers|
      ensures !Grants(c, signers[i], from)
    {
      assert SpeaksFor(signers[i], from) || !SpeaksFor(signers[i], from);
    }
  }

  /** More signers, in any order and multiplicity, never take authority away. */
  lemma AuthorizationMonotone<D>(c: Setting<D>, signers: seq<Account>, more: seq<Account>, from: Address)
    requires forall s :: s in signers ==> s in more
    ensures Authorizes(c, signers, from) ==> Authorizes(c, more, from)
  {
    if i :| 0 <= i < |signers| && Grants(c, signers[i], from) {
      assert signers[i] in more;
      var j :| 0 <= j < |more| && more[j] == signers[i];
      assert Grants(c, more[j], from);
    }
  }

  /** The verdict does not depend on the order in which the scan meets the signers. */
  lemma AuthorizationPermutes<D>(c: Setting<D>, signers: seq<Account>, permuted: seq<Account>, from: Address)
    requires multiset(signers) == multiset(permuted)
    ensures Authorizes(c, signers, from) <==> Authorizes(c, permuted, from)
  {
    forall s
      ensures s in signers <==> s in permuted
    {
      assert s in multiset(signers) <==> s in multiset(permuted);
    }
    AuthorizationMonotone(c, signers, permuted, from);
    AuthorizationMonotone(c, permuted, signers, from);
  }

  /** The most significant bytes come first. */
  lemma {:induction false} BigEndianJoin(x: seq<Byte>, y: seq<Byte>)
    ensures BigEndian(x + y) == BigEndian(x) * Pow2(8 * |y|) + BigEndian(y)
  {
    SmallPowers();
    hide Pow2;
    if y == [] {
      assert x + y == x;
    } else {
      var n := |y| - 1;
      var all := x + y;
      assert all[..|all| - 1] == x + y[..n] && all[|all| - 1] == y[n];
      BigEndianJoin(x, y[..n]);
      EightMore(8 * n);
      MulRegroup(BigEndian(x), 0x100, Pow2(8 * n));
    }
  }

  lemma BigEndianByte(b: Byte)
    ensures BigEndian([b]) == b
  {
    assert [b][..0] == [];
  }

  lemma {:induction false} BigEndianInjective(x: seq<Byte>, y: seq<Byte>)
    requires |x| == |y| && BigEndian(x) == BigEndian(y)
    ensures x == y
  {
    if x == [] {
    } else {
      var n := |x| - 1;
      BigEndianInjective(x[..n], y[..n]);
      assert x == x[..n] + [x[n]] && y == y[..n] + [y[n]];
    }
  }

  /** Authority over an address rests on one identity: all signers that grant it have the same
    * id, and none of them grants any other address.
    */
  lemma GrantersShareId<D>(c: Setting<D>, s: Account, t: Account, from: Address, to: Address)
    requires Grants(c, s, from) && Grants(c, t, to)
    ensures s.id == t.id <==> from == to
  {
    if from == to {
      BigEndianInjective(s.id, t.id);
    }
  }
}

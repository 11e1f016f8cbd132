/** The account state behind vm/interface.go's StateDB, with its snapshot stack.  The repository only has the
    interface; the model follows what its callers rely on. */
module StateDb {
  import opened Uint
  import opened Sstore

  datatype Log = Log(address: Address, topics: seq<Word>, data: seq<Byte>)

  /** What a static call must leave alone. */
  datatype Visible = Visible(
    balances: map<Address, nat>, nonces: map<Address, U64>, codes: map<Address, Bytes>,
    storage: Storage, transient: Storage, logs: seq<Log>, suicided: set<Address>)

  datatype World = World(
    vis: Visible, exist: set<Address>, committed: Storage,
    refund: nat, accAddresses: set<Address>, accSlots: set<Key>)
  {
    /** Only existing accounts hold anything. */
    predicate Valid() {
      && vis.balances.Keys <= exist && vis.nonces.Keys <= exist && vis.codes.Keys <= exist
      && vis.storage.Keys <= exist && committed.Keys <= exist && vis.suicided <= exist
    }

    function Balance(a: Address): (n: nat) { if a in vis.balances then vis.balances[a] else 0 }
    function Nonce(a: Address): (n: U64) { if a in vis.nonces then vis.nonces[a] else 0 }
    function Code(a: Address): (c: Bytes) { if a in vis.codes then vis.codes[a] else [] }
    predicate Exist(a: Address) { a in exist }
    /** EIP-161 */
    predicate Empty(a: Address) { Balance(a) == 0 && Nonce(a) == 0 && Code(a) == [] }

    /** GetOrNewStateObject: a first touch brings an empty account into being. */
    function Touch(a: Address): (w: World)
      ensures Valid() ==> w.Valid()
    {
      this.(exist := exist + {a})
    }

    function SetBalance(a: Address, n: nat): (w: World)
      ensures Valid() ==> w.Valid()
    {
      Touch(a).(vis := vis.(balances := vis.balances[a := n]))
    }
    function SetNonce(a: Address, n: U64): (w: World)
      ensures Valid() ==> w.Valid()
    {
      Touch(a).(vis := vis.(nonces := vis.nonces[a := n]))
    }
    function SetCode(a: Address, c: Bytes): (w: World)
      ensures Valid() ==> w.Valid()
    {
      Touch(a).(vis := vis.(codes := vis.codes[a := c]))
    }
    function SetState(a: Address, k: Word, v: Word): (w: World)
      ensures Valid() ==> w.Valid()
    {
      Touch(a).(vis := vis.(storage := Put(vis.storage, a, k, v)))
    }
    function SetTransient(a: Address, k: Word, v: Word): (w: World)
      ensures Valid() ==> w.Valid()
    {
      this.(vis := vis.(transient := Put(vis.transient, a, k, v)))
    }
    function AddLog(l: Log): (w: World)
      ensures Valid() ==> w.Valid()
    {
      this.(vis := vis.(logs := vis.logs + [l]))
    }

    /** Adding or taking nothing only touches the account. */
    function AddBalance(a: Address, n: nat): (w: World)
      ensures Valid() ==> w.Valid()
    {
      if n == 0 then Touch(a) else SetBalance(a, Balance(a) + n)
    }
    function SubBalance(a: Address, n: nat): (w: World)
      requires n <= Balance(a)
    {
      if n == 0 then Touch(a) else SetBalance(a, Balance(a) - n)
    }

    /** Transfer of core/evm.go */
    function Transfer(from: Address, to: Address, n: nat): (w: World)
      requires n <= Balance(from)
      ensures w.committed == committed && w.refund == refund
      ensures w.accAddresses == accAddresses && w.accSlots == accSlots
      ensures w.vis == vis.(balances := w.vis.balances)
      ensures n == 0 ==> w.vis == vis
      ensures Valid() ==> w.Valid()
    {
      SubBalance(from, n).AddBalance(to, n)
    }

    /** A new, blank account; a balance that was there is carried over. */
    function CreateAccount(a: Address): (w: World)
      ensures Valid() ==> w.Valid()
      ensures Valid() && a !in exist ==> w.vis == vis && w.committed == committed
      ensures w.refund == refund && w.accAddresses == accAddresses && w.accSlots == accSlots
      ensures w.vis.balances == vis.balances
    {
      var v := vis.(nonces := vis.nonces - {a}, codes := vis.codes - {a}, storage := vis.storage - {a},
                    suicided := vis.suicided - {a});
      assert Valid() && a !in exist ==> v == vis && committed - {a} == committed;
      this.(vis := v, exist := exist + {a}, committed := committed - {a})
    }

    /** Suicide: the balance is gone, the rest stays until the transaction ends. */
    function Suicide(a: Address): (w: World)
      ensures Valid() ==> w.Valid()
    {
      if a !in exist then this
      else this.(vis := vis.(balances := vis.balances[a := 0], suicided := vis.suicided + {a}))
    }

    function AddAddress(a: Address): (w: World) { this.(accAddresses := accAddresses + {a}) }
    function AddSlot(a: Address, k: Word): (w: World) {
      this.(accAddresses := accAddresses + {a}, accSlots := accSlots + {(a, k)})
    }
    function AddRefund(n: nat): (w: World) { this.(refund := refund + n) }
    /** The requires is the panic "Refund counter below zero". */
    function SubRefund(n: nat): (w: World)
      requires n <= refund
    {
      this.(refund := refund - n)
    }
  }

  // ---- the ether in existence

  ghost function Supply(b: map<Address, nat>): (n: nat)
    decreases |b|
  {
    if b == map[] then 0
    else
      var a :| a in b;
      b[a] + Supply(b - {a})
  }

  /** The sum does not depend on the order of the accounts. */
  lemma {:induction false} SupplyTakes(b: map<Address, nat>, x: Address)
    requires x in b
    ensures Supply(b) == b[x] + Supply(b - {x})
    decreases |b|
  {
    var a :| a in b && Supply(b) == b[a] + Supply(b - {a});
    if a != x {
      SupplyTakes(b - {a}, x);
      SupplyTakes(b - {x}, a);
      assert b - {a} - {x} == b - {x} - {a};
    }
  }

  lemma {:induction false} SupplyAfterSet(b: map<Address, nat>, a: Address, n: nat)
    ensures Supply(b[a := n]) == Supply(b) - (if a in b then b[a] else 0) + n
  {
    var c := b[a := n];
    SupplyTakes(c, a);
    if a in b {
      SupplyTakes(b, a);
      assert c - {a} == b - {a};
    } else {
      assert c - {a} == b;
    }
  }

  /** A transfer moves ether, it neither makes nor burns any. */
  lemma TransferKeepsSupply(w: World, from: Address, to: Address, n: nat)
    requires n <= w.Balance(from)
    ensures Supply(w.Transfer(from, to, n).vis.balances) == Supply(w.vis.balances)
  {
    if n > 0 {
      var m := w.SubBalance(from, n);
      SupplyAfterSet(w.vis.balances, from, w.Balance(from) - n);
      SupplyAfterSet(m.vis.balances, to, m.Balance(to) + n);
    }
  }

  lemma AbsentHasNoCode(w: World, a: Address)
    requires w.Valid()
    ensures !w.Exist(a) ==> w.Code(a) == []
  {
  }

  // ---- snapshots

  datatype Revision = Revision(id: nat, world: World)

  /** Snapshot ids grow and are never handed out twice. */
  ghost predicate Increasing(revisions: seq<Revision>, nextId: nat) {
    && (forall i, j :: 0 <= i < j < |revisions| ==> revisions[i].id < revisions[j].id)
    && (forall i :: 0 <= i < |revisions| ==> revisions[i].id < nextId)
  }

  datatype Db = Db(world: World, revisions: seq<Revision>, nextId: nat)
  {
    ghost predicate Valid() {
      Increasing(revisions, nextId)
    }

    /** The id of the new snapshot is nextId. */
    function Snapshot(): (d: Db)
      ensures Valid() ==> d.Valid()
      ensures d.world == world && d.revisions == revisions + [Revision(nextId, world)]
    {
      Db(world, revisions + [Revision(nextId, world)], nextId + 1)
    }

    /** A snapshot with this id can still be reverted to. */
    predicate CanRevert(id: nat) {
      Find(revisions, id) >= 0
    }

    /** RevertToSnapshot: the requires is the panic "revision id cannot be reverted". */
    function RevertTo(id: nat): (d: Db)
      requires CanRevert(id)
    {
      var i := Find(revisions, id);
      Db(revisions[i].world, revisions[..i], nextId)
    }
  }

  /** Position of the revision with this id, or -1. */
  function Find(revisions: seq<Revision>, id: nat): (i: int)
    ensures -1 <= i < |revisions|
    ensures i >= 0 ==> revisions[i].id == id
    ensures i < 0 ==> forall j :: 0 <= j < |revisions| ==> revisions[j].id != id
  {
    if revisions == [] then -1
    else
      var last := |revisions| - 1;
      if revisions[last].id == id then last else Find(revisions[..last], id)
  }

  /** A snapshot that later code has only stacked others upon can be reverted to, and reverting restores its
      world and drops exactly the later ones. */
  lemma RevertsExactly(before: seq<Revision>, id: nat, world: World, now: Db)
    requires now.Valid()
    requires before + [Revision(id, world)] <= now.revisions
    ensures now.CanRevert(id)
    ensures now.RevertTo(id) == Db(world, before, now.nextId)
    ensures now.RevertTo(id).Valid()
  {
    var n := |before|;
    assert now.revisions[n] == Revision(id, world);
    var i := Find(now.revisions, id);
    assert i == n;
    assert now.revisions[..n] == before;
  }
}

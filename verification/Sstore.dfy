/** Net-metered SSTORE: gasSStore (EIP-1283) and gasSStoreEIP2200 of vm/gas_table.go and
    makeGasSStoreFunc (EIP-2929, EIP-3529) of vm/operations_acl.go. */
module Sstore {
  import opened Uint

  type Address = Word

  // ---- storage of all accounts; a missing entry is zero

  type Storage = map<Address, map<Word, Word>>

  function Get(s: Storage, a: Address, k: Word): (v: Word) {
    if a in s && k in s[a] then s[a][k] else 0
  }

  function Put(s: Storage, a: Address, k: Word, v: Word): (r: Storage)
    ensures Get(r, a, k) == v
    ensures forall b: Address, l: Word :: (b, l) != (a, k) ==> Get(r, b, l) == Get(s, b, l)
    ensures r.Keys == s.Keys + {a}
  {
    s[a := (if a in s then s[a] else map[])[k := v]]
  }

  // ---- the price of one store

  /** The figures of one rule set.  cold is the EIP-2929 surcharge, sentry the EIP-2200 gas floor. */
  datatype Schedule = Schedule(
    read: U64, init: U64, clean: U64, clearRefund: U64, cold: U64, sentry: U64)
  {
    ghost predicate Valid() {
      read <= init && read <= clean
    }
  }

  const EIP1283 := Schedule(200, 20_000, 5_000, 15_000, 0, 0)
  const EIP2200 := Schedule(800, 20_000, 5_000, 15_000, 0, 2_300)
  const EIP2929 := Schedule(100, 20_000, 5_000 - 2_100, 15_000, 2_100, 2_300)
  const EIP3529 := Schedule(100, 20_000, 5_000 - 2_100, 4_800, 2_100, 2_300)

  /** Gas deducted, and what leaves and enters the refund counter, in that order. */
  datatype Charge = Charge(gas: nat, subRefund: nat, addRefund: nat)

  /** The clauses (1) to (2.2.2.2) shared by the three rule sets. */
  function NetCharge(p: Schedule, original: Word, current: Word, value: Word): (c: Charge)
    requires p.Valid()
  {
    if current == value then Charge(p.read, 0, 0)
    else if original == current then
      if original == 0 then Charge(p.init, 0, 0)
      else Charge(p.clean, 0, if value == 0 then p.clearRefund else 0)
    else
      var sub := if original != 0 && current == 0 then p.clearRefund else 0;
      var add := if original != 0 && current != 0 && value == 0 then p.clearRefund else 0;
      var reset := if original != value then 0 else if original == 0 then p.init - p.read else p.clean - p.read;
      Charge(p.read, sub, add + reset)
  }

  /** What holding value c in a slot that began the transaction with o costs in the end, beyond reads. */
  function Potential(p: Schedule, o: Word, c: Word): (r: int) {
    if c == o then 0
    else if o == 0 then p.init - p.read
    else if c == 0 then p.clean - p.read - p.clearRefund
    else p.clean - p.read
  }

  /** Each store pays one read and moves the potential: nothing of the path is left in the net price. */
  lemma StoreMovesPotential(p: Schedule, o: Word, c: Word, v: Word)
    requires p.Valid()
    ensures var ch := NetCharge(p, o, c, v);
            ch.gas + ch.subRefund - ch.addRefund == p.read + Potential(p, o, v) - Potential(p, o, c)
  {
  }

  // ---- sums over slots

  type Key = (Address, Word)

  function At(s: Storage, k: Key): (v: Word) {
    Get(s, k.0, k.1)
  }

  ghost function Total(p: Schedule, original: Storage, current: Storage, keys: set<Key>): (r: int)
    decreases keys
  {
    if keys == {} then 0
    else
      var k :| k in keys;
      Potential(p, At(original, k), At(current, k)) + Total(p, original, current, keys - {k})
  }

  /** The sum does not depend on the order in which the slots are taken. */
  lemma {:induction false} TotalTakes(p: Schedule, original: Storage, current: Storage, keys: set<Key>, x: Key)
    requires x in keys
    ensures Total(p, original, current, keys)
         == Potential(p, At(original, x), At(current, x)) + Total(p, original, current, keys - {x})
    decreases keys
  {
    var k :| k in keys && Total(p, original, current, keys)
      == Potential(p, At(original, k), At(current, k)) + Total(p, original, current, keys - {k});
    if k != x {
      TotalTakes(p, original, current, keys - {k}, x);
      TotalTakes(p, original, current, keys - {x}, k);
      assert keys - {k} - {x} == keys - {x} - {k};
    }
  }

  /** Storages that agree on the slots have one total. */
  lemma {:induction false} TotalAgrees(p: Schedule, original: Storage, s: Storage, t: Storage, keys: set<Key>)
    requires forall k :: k in keys ==> At(s, k) == At(t, k)
    ensures Total(p, original, s, keys) == Total(p, original, t, keys)
    decreases keys
  {
    if keys != {} {
      var x :| x in keys;
      TotalAgrees(p, original, s, t, keys - {x});
      TotalTakes(p, original, s, keys, x);
      TotalTakes(p, original, t, keys, x);
    }
  }

  // ---- runs

  datatype Write = Write(key: Key, value: Word)

  /** A frame's view: gas left, refund counter, storage and warm slots. */
  datatype State = State(gas: nat, refund: int, current: Storage, warm: set<Key>)

  /** One SSTORE; None when it meets the sentry or runs out of gas. */
  function Store(p: Schedule, original: Storage, s: State, w: Write): (r: Option<State>)
    requires p.Valid()
  {
    var c := NetCharge(p, At(original, w.key), At(s.current, w.key), w.value);
    var cost := c.gas + if w.key in s.warm then 0 else p.cold;
    if s.gas <= p.sentry || s.gas < cost then None
    else Some(State(s.gas - cost, s.refund - c.subRefund + c.addRefund,
                    Put(s.current, w.key.0, w.key.1, w.value), s.warm + {w.key}))
  }

  /** A sequence of SSTOREs that all succeed. */
  function Run(p: Schedule, original: Storage, s: State, writes: seq<Write>): (r: Option<State>)
    requires p.Valid()
    decreases |writes|
  {
    if writes == [] then Some(s)
    else
      match Store(p, original, s, writes[0])
      case None => None
      case Some(t) => Run(p, original, t, writes[1..])
  }

  function Touched(writes: seq<Write>): (keys: set<Key>) {
    if writes == [] then {} else {writes[0].key} + Touched(writes[1..])
  }

  /** What a frame is out of pocket when it stands at t after having stood at s. */
  function Spent(s: State, t: State): (r: int) {
    (s.gas - t.gas) - (t.refund - s.refund)
  }

  /** One store: a read, the surcharge if the slot was cold, and the change of one slot's potential. */
  lemma StorePrice(p: Schedule, original: Storage, s: State, w: Write, keys: set<Key>)
    requires p.Valid() && w.key in keys
    requires Store(p, original, s, w).Some?
    ensures var t := Store(p, original, s, w).value;
            && t.warm == s.warm + {w.key}
            && Spent(s, t) == p.read + (if w.key in s.warm then 0 else p.cold)
              + Total(p, original, t.current, keys) - Total(p, original, s.current, keys)
  {
    var t := Store(p, original, s, w).value;
    StoreMovesPotential(p, At(original, w.key), At(s.current, w.key), w.value);
    TotalTakes(p, original, s.current, keys, w.key);
    TotalTakes(p, original, t.current, keys, w.key);
    TotalAgrees(p, original, s.current, t.current, keys - {w.key});
  }

  lemma ColdOnce(warm: set<Key>, k: Key, rest: set<Key>)
    ensures |({k} + rest) - warm| == |rest - (warm + {k})| + if k in warm then 0 else 1
  {
    if k in warm {
      assert ({k} + rest) - warm == rest - (warm + {k});
    } else {
      assert ({k} + rest) - warm == (rest - (warm + {k})) + {k};
    }
  }

  lemma {:induction false} RunWarms(p: Schedule, original: Storage, s: State, writes: seq<Write>)
    requires p.Valid() && Run(p, original, s, writes).Some?
    ensures Run(p, original, s, writes).value.warm == s.warm + Touched(writes)
    decreases |writes|
  {
    if writes != [] {
      RunWarms(p, original, Store(p, original, s, writes[0]).value, writes[1..]);
    }
  }

  /** n reads and the cold surcharge for the given number of slots. */
  function Base(p: Schedule, n: nat, coldSlots: nat): (r: int) {
    n * p.read + coldSlots * p.cold
  }

  lemma BaseStep(p: Schedule, n: nat, coldSlots: nat, cold: bool)
    ensures Base(p, n + 1, coldSlots + if cold then 1 else 0)
         == p.read + (if cold then p.cold else 0) + Base(p, n, coldSlots)
  {
  }

  /** The net price of a run: one read per store, the surcharge once per slot that was cold, and for each slot
      the change of a potential of (original, current) alone. */
  lemma {:induction false} NetPrice(p: Schedule, original: Storage, s: State, writes: seq<Write>, keys: set<Key>)
    requires p.Valid()
    requires Touched(writes) <= keys
    requires Run(p, original, s, writes).Some?
    ensures var t := Run(p, original, s, writes).value;
            Spent(s, t) == Base(p, |writes|, |Touched(writes) - s.warm|)
                 + Total(p, original, t.current, keys) - Total(p, original, s.current, keys)
    decreases |writes|
  {
    hide Store, Put, Get, Total, NetCharge;
    if writes == [] {
      assert Touched(writes) - s.warm == {};
    } else {
      var w, rest := writes[0], writes[1..];
      var m := Store(p, original, s, w).value;
      StorePrice(p, original, s, w, keys);
      NetPrice(p, original, m, rest, keys);
      ColdOnce(s.warm, w.key, Touched(rest));
      BaseStep(p, |rest|, |Touched(rest) - m.warm|, w.key !in s.warm);
    }
  }

  /** Path independence: two runs from one state that end with the same storage, are equally long and touch the
      same slots cost the same in the end, whatever values they wrote on the way. */
  lemma PathIndependent(p: Schedule, original: Storage, s: State, ws: seq<Write>, vs: seq<Write>)
    requires p.Valid()
    requires |ws| == |vs| && Touched(ws) == Touched(vs)
    requires Run(p, original, s, ws).Some? && Run(p, original, s, vs).Some?
    requires forall k :: k in Touched(ws) ==>
      At(Run(p, original, s, ws).value.current, k) == At(Run(p, original, s, vs).value.current, k)
    ensures Spent(s, Run(p, original, s, ws).value) == Spent(s, Run(p, original, s, vs).value)
  {
    var keys := Touched(ws);
    NetPrice(p, original, s, ws, keys);
    NetPrice(p, original, s, vs, keys);
    TotalAgrees(p, original, Run(p, original, s, ws).value.current, Run(p, original, s, vs).value.current, keys);
  }

  // ---- the refund counter

  /** The slots that began the transaction non-zero and are zero now. */
  ghost function Cleared(original: Storage, current: Storage): (keys: set<Key>) {
    set a, k | a in original && k in original[a] && original[a][k] != 0 && Get(current, a, k) == 0 :: (a, k)
  }

  /** The bound that keeps the refund counter from going below zero. */
  ghost predicate RefundBound(clearRefund: nat, original: Storage, current: Storage, refund: int) {
    refund >= clearRefund * |Cleared(original, current)|
  }

  /** Before the first store the bound holds whatever the counter says. */
  lemma NothingCleared(clearRefund: nat, original: Storage, refund: nat)
    ensures RefundBound(clearRefund, original, original, refund)
  {
    assert Cleared(original, original) == {};
  }

  /** Writing one slot changes the cleared slots by that one at most. */
  lemma ClearedAfterPut(original: Storage, current: Storage, k: Key, v: Word)
    ensures var after := Cleared(original, Put(current, k.0, k.1, v));
            if At(original, k) != 0 && v == 0 then after == Cleared(original, current) + {k}
            else after == Cleared(original, current) - {k}
    ensures k in Cleared(original, current) <==> At(original, k) != 0 && At(current, k) == 0
  {
  }

  /** "We can prove that refund counter will never go below 0": a store finds enough in the counter for what it
      takes out, and leaves the bound behind. */
  lemma StoreKeepsRefundBound(p: Schedule, original: Storage, current: Storage, k: Key, v: Word, refund: int)
    requires p.Valid()
    requires RefundBound(p.clearRefund, original, current, refund)
    ensures var c := NetCharge(p, At(original, k), At(current, k), v);
            && c.subRefund <= refund
            && RefundBound(p.clearRefund, original, Put(current, k.0, k.1, v), refund - c.subRefund + c.addRefund)
  {
    hide Cleared, Put;
    var before := Cleared(original, current);
    ClearedAfterPut(original, current, k, v);
    if At(original, k) != 0 && v == 0 {
      CountPlus(p.clearRefund, before, k);
    } else {
      CountMinus(p.clearRefund, before, k);
    }
  }

  lemma CountPlus(n: nat, s: set<Key>, k: Key)
    ensures n * |s + {k}| == n * |s| + if k in s then 0 else n
  {
    if k in s {
      assert s + {k} == s;
    }
  }

  lemma CountMinus(n: nat, s: set<Key>, k: Key)
    ensures n * |s - {k}| == n * |s| - if k in s then n else 0
  {
    if k !in s {
      assert s - {k} == s;
    }
  }

  /** Over any run of stores the counter stays within the bound, so it never goes below zero. */
  lemma {:induction false} RunKeepsRefundBound(p: Schedule, original: Storage, s: State, writes: seq<Write>)
    requires p.Valid()
    requires RefundBound(p.clearRefund, original, s.current, s.refund)
    requires Run(p, original, s, writes).Some?
    ensures var t := Run(p, original, s, writes).value;
            t.refund >= 0 && RefundBound(p.clearRefund, original, t.current, t.refund)
    decreases |writes|
  {
    if writes != [] {
      var w := writes[0];
      StoreKeepsRefundBound(p, original, s.current, w.key, w.value, s.refund);
      RunKeepsRefundBound(p, original, Store(p, original, s, w).value, writes[1..]);
    }
  }
}

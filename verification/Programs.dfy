/** Whole runs of small programs, byte by byte: PUSH1 v PUSH1 0 SSTORE, over and over, under the pricing of EIP-2200. */
module Programs {
  import opened Uint
  import opened FrameMemory
  import opened JumpTable
  import opened Sstore
  import opened StateDb
  import opened EvmState
  import opened GasTable
  import opened Semantics
  import Bitmap
  import Interpreter

  /** One store of a byte to slot 0 after another. */
  ghost function Code(values: seq<Byte>): (code: seq<Byte>)
    ensures |code| == 5 * |values|
  {
    if values == [] then [] else [0x60, values[0], 0x60, 0x00, 0x55] + Code(values[1..])
  }

  /** What such a program does to gas and refund counter, store by store: two pushes, the sentry, the price; None when
      the gas does not suffice.  The slot began the transaction with original and now holds current. */
  function Play(original: Word, current: Word, gas: int, refund: int, values: seq<Byte>): (r: Option<(int, int)>)
    decreases |values|
  {
    if values == [] then Some((gas, refund))
    else
      var c := NetCharge(EIP2200, original, current, values[0]);
      if gas - 6 <= 2_300 || gas - 6 < c.gas then None
      else Play(original, values[0], gas - 6 - c.gas, refund - c.subRefund + c.addRefund, values[1..])
  }

  // ---- single turns

  lemma PushTurn(c: Ctx, v: View, a: View, out: Outcome)
    requires Bitmap.OpAt(c.code, v.pc) == 0x60 && |v.stack| < 1024 && v.pc + 2 < TWO_64 && Turn(c, v, a, out)
    ensures v.gas < 3 ==> out == Fail(OutOfGas, [])
    ensures v.gas >= 3 ==>
      out == Next && a == v.(stack := v.stack + [Bitmap.OpAt(c.code, v.pc + 1)], pc := v.pc + 2, gas := v.gas - 3)
  {
    hide CallTurn, CreateTurn;
    assert PushArgument(c.code, v.pc, 1) == [Bitmap.OpAt(c.code, v.pc + 1)];
    OneByte(Bitmap.OpAt(c.code, v.pc + 1));
  }

  lemma OneByte(b: Byte)
    ensures FromBytes([b]) == b
  {
    assert [b][..0] == [];
  }

  lemma SstoreTurn(c: Ctx, v: View, a: View, out: Outcome)
    requires c.host.fork == Istanbul && !c.host.readOnly
    requires Bitmap.OpAt(c.code, v.pc) == 0x55 && |v.stack| == 2 && v.pc + 1 < TWO_64 && Turn(c, v, a, out)
    ensures var w, x, key := v.world, a.world, (c.address, v.stack[1]);
      var cost := StoreCost(Istanbul, SstoreEip2200, w, key, v.stack[0]);
      var refund := w.refund + StoreRefund(Istanbul, SstoreEip2200, w, key, v.stack[0]);
      if v.gas <= 2_300 || v.gas < cost then out == Fail(OutOfGas, [])
      else
        && out == Next && a.stack == [] && a.pc == v.pc + 1 && a.gas == v.gas - cost
        && x.committed == w.committed && x.refund == (if refund < 0 then 0 else refund)
        && Writes(w.vis.storage, x.vis.storage, key.0, key.1, v.stack[0])
  {
    hide CallTurn, CreateTurn, StoreCost, StoreRefund, Writes;
  }

  // ---- runs

  lemma {:induction false} CodeAt(values: seq<Byte>, i: nat)
    requires i < |values|
    ensures var code := Code(values);
      && code[5 * i] == 0x60 && code[5 * i + 1] == values[i] && code[5 * i + 2] == 0x60 && code[5 * i + 3] == 0x00
      && code[5 * i + 4] == 0x55
    decreases i
  {
    if i > 0 {
      CodeAt(values[1..], i - 1);
    }
  }

  /** The counter can pay what a store takes out, and again covers the slot. */
  lemma CounterCovers(original: Word, current: Word, value: Word, refund: nat)
    requires original != 0 && current == 0 ==> refund >= 15_000
    ensures var c := NetCharge(EIP2200, original, current, value);
      && refund - c.subRefund + c.addRefund >= 0
      && (original != 0 && value == 0 ==> refund - c.subRefund + c.addRefund >= 15_000)
  {
  }

  /** The frame is about to store the i-th byte, and the counter covers the slot if it is cleared. */
  ghost predicate At(c: Ctx, values: seq<Byte>, i: nat, v: View) {
    && c.host.fork == Istanbul && !c.host.readOnly && c.code == Code(values) && i <= |values|
    && v.pc == 5 * i && v.stack == []
    && (Get(v.world.committed, c.address, 0) != 0 && Get(v.world.vis.storage, c.address, 0) == 0 ==>
          v.world.refund >= 15_000)
  }

  /** Three turns: both pushes and the store.  Either the gas runs out, or the next store is up. */
  lemma OneStore(c: Ctx, values: seq<Byte>, i: nat, v: View, r: Answer) returns (a: View)
    requires At(c, values, i, v) && i < |values| && From(c, v, r)
    ensures var w := v.world;
      var o, cur := Get(w.committed, c.address, 0), Get(w.vis.storage, c.address, 0);
      var charge := NetCharge(EIP2200, o, cur, values[i]);
      if v.gas - 6 <= 2_300 || v.gas - 6 < charge.gas then r.err == Some(OutOfGas)
      else
        && At(c, values, i + 1, a) && From(c, a, r) && a.gas == v.gas - 6 - charge.gas
        && a.world.refund == w.refund - charge.subRefund + charge.addRefund
        && Get(a.world.committed, c.address, 0) == o && Get(a.world.vis.storage, c.address, 0) == values[i]
  {
    hide From, Turn, Code, StoreCost, StoreRefund, NetCharge;
    CodeAt(values, i);
    CounterCovers(Get(v.world.committed, c.address, 0), Get(v.world.vis.storage, c.address, 0), values[i],
                  v.world.refund);
    var out;
    a, out := Interpreter.FirstTurn(c, v, r);
    PushTurn(c, v, a, out);
    if v.gas >= 6 {
      var b := a;
      a, out := Interpreter.FirstTurn(c, b, r);
      PushTurn(c, b, a, out);
      b := a;
      assert b.stack == [values[i], 0] && b.world == v.world;
      a, out := Interpreter.FirstTurn(c, b, r);
      SstoreTurn(c, b, a, out);
      ScheduleFigures(Istanbul, SstoreEip2200, v.world, (c.address, 0), values[i]);
    } else if v.gas >= 3 {
      var b := a;
      a, out := Interpreter.FirstTurn(c, b, r);
      PushTurn(c, b, a, out);
    }
  }

  /** Any such program, with any gas: it ends as Play says, and otherwise for want of gas. */
  lemma {:induction false} ProgramPlays(c: Ctx, values: seq<Byte>, i: nat, v: View, r: Answer)
    requires At(c, values, i, v) && From(c, v, r)
    ensures match Play(Get(v.world.committed, c.address, 0), Get(v.world.vis.storage, c.address, 0), v.gas,
                       v.world.refund, values[i..])
      case None => r.err == Some(OutOfGas)
      case Some((gas, refund)) => r.err == None && r.ret == [] && r.gas == gas && r.world.refund == refund
    decreases |values| - i
  {
    hide From, Turn, Code, NetCharge;
    if i == |values| {
      var a, out := Interpreter.FirstTurn(c, v, r);
      Interpreter.StopTurn(c, v, a, out);
    } else {
      var a := OneStore(c, values, i, v, r);
      assert values[i..][0] == values[i] && values[i..][1..] == values[i + 1..];
      if At(c, values, i + 1, a) && From(c, a, r) {
        ProgramPlays(c, values, i + 1, a, r);
      }
    }
  }

  // ---- the runs of TestEIP2200

  /** One row: the slot's value before the transaction, the gas pool, the bytes stored one after the other, the gas
      used, the refund counter, and whether the run fails. */
  datatype Case = Case(original: Byte, gasPool: U64, values: seq<Byte>, used: nat, refund: nat, fails: bool)

  /** A slot that began empty. */
  function CasesFromZero(): (cases: seq<Case>) {
    [Case(0, MAX_U64, [0, 0], 1_612, 0, false),
     Case(0, MAX_U64, [0, 1], 20_812, 0, false),
     Case(0, MAX_U64, [1, 0], 20_812, 19_200, false),
     Case(0, MAX_U64, [1, 2], 20_812, 0, false),
     Case(0, MAX_U64, [1, 1], 20_812, 0, false),
     Case(0, MAX_U64, [1, 0, 1], 40_818, 19_200, false)]
  }

  /** A slot that began with one and was cleared or changed first. */
  function CasesCleared(): (cases: seq<Case>) {
    [Case(1, MAX_U64, [0, 0], 5_812, 15_000, false),
     Case(1, MAX_U64, [0, 1], 5_812, 4_200, false),
     Case(1, MAX_U64, [0, 2], 5_812, 0, false),
     Case(1, MAX_U64, [2, 0], 5_812, 15_000, false),
     Case(1, MAX_U64, [2, 3], 5_812, 0, false),
     Case(1, MAX_U64, [2, 1], 5_812, 4_200, false),
     Case(1, MAX_U64, [2, 2], 5_812, 0, false)]
  }

  /** The rest, with the sentry. */
  function CasesOthers(): (cases: seq<Case>) {
    [Case(1, MAX_U64, [1, 0], 5_812, 15_000, false),
     Case(1, MAX_U64, [1, 2], 5_812, 0, false),
     Case(1, MAX_U64, [1, 1], 1_612, 0, false),
     Case(1, MAX_U64, [0, 1, 0], 10_818, 19_200, false),
     Case(1, 2_306, [1], 2_306, 0, true),
     Case(1, 2_307, [1], 806, 0, false)]
  }

  function Cases(): (cases: seq<Case>) {
    CasesFromZero() + CasesCleared() + CasesOthers()
  }

  /** The row is what Play comes to. */
  ghost predicate PlaysOut(t: Case) {
    && t.values != [] && (t.fails ==> t.used == t.gasPool && t.refund == 0)
    && Play(t.original, t.original, t.gasPool, 0, t.values)
         == (if t.fails then None else Some((t.gasPool - t.used, t.refund)))
  }

  lemma FromZeroPlay(k: nat)
    requires k < |CasesFromZero()|
    ensures PlaysOut(CasesFromZero()[k])
  {
  }

  lemma ClearedPlay(k: nat)
    requires k < |CasesCleared()|
    ensures PlaysOut(CasesCleared()[k])
  {
  }

  lemma OthersPlay(k: nat)
    requires k < |CasesOthers()|
    ensures PlaysOut(CasesOthers()[k])
  {
  }

  lemma CasesPlay(k: nat)
    requires k < |Cases()|
    ensures PlaysOut(Cases()[k])
  {
    hide PlaysOut;
    if k < 6 {
      FromZeroPlay(k);
    } else if k < 13 {
      ClearedPlay(k - 6);
    } else {
      OthersPlay(k - 13);
    }
  }

  /** The account holds the program and, in slot 0, a value it had when the transaction began; no refunds yet. */
  ghost predicate Deployed(w: World, addr: Address, original: Word, values: seq<Byte>) {
    && w.Valid() && w.Exist(addr) && w.Code(addr) == Code(values) && w.refund == 0
    && Get(w.committed, addr, 0) == original && Get(w.vis.storage, addr, 0) == original
  }

  /** A call from outside that runs such a program. */
  lemma StoreCall(h: Host, caller: Address, addr: Address, values: seq<Byte>, gas: U64, original: Word, w: World,
                  r: Answer)
    requires h.fork == Istanbul && !h.joinPoints && h.depth == 0 && !h.readOnly && !IsPrecompile(Istanbul, addr)
    requires values != [] && Deployed(w, addr, original, values) && Calls(h, caller, addr, [], gas, 0, w, r)
    ensures match Play(original, original, gas, 0, values)
      case None => r.err == Some(OutOfGas) && r.gas == 0 && r.world == w
      case Some((left, refund)) => r.err == None && r.ret == [] && r.gas == left && r.world.refund == refund
  {
    hide Yields, From, Play, Code;
    var x := Entered(w, caller, addr, 0);
    var c := Ctx(Deeper(h, false), caller, addr, 0, x.Code(addr), []);
    var ran: Answer :| Yields(c, gas, x, ran) && r == Settled(w, ran);
    StoreRun(c, values, gas, x, ran);
  }

  lemma StoreRun(c: Ctx, values: seq<Byte>, gas: U64, w: World, r: Answer)
    requires c.host.fork == Istanbul && !c.host.readOnly && c.code == Code(values) && values != []
    requires Get(w.committed, c.address, 0) == Get(w.vis.storage, c.address, 0) && w.refund == 0
    requires Yields(c, gas, w, r)
    ensures match Play(Get(w.committed, c.address, 0), Get(w.committed, c.address, 0), gas, 0, values)
      case None => r.err == Some(OutOfGas)
      case Some((left, refund)) => r.err == None && r.ret == [] && r.gas == left && r.world.refund == refund
  {
    hide From, Play;
    ProgramPlays(c, values, 0, View([], [], 0, gas, w, []), r);
    assert values[0..] == values;
  }

  /** Every row of the test, under the fork whose SSTORE it tests. */
  lemma TestEip2200(k: nat, h: Host, caller: Address, addr: Address, w: World, r: Answer)
    requires k < |Cases()|
    requires h.fork == Istanbul && !h.joinPoints && h.depth == 0 && !h.readOnly && !IsPrecompile(Istanbul, addr)
    requires var t := Cases()[k];
      Deployed(w, addr, t.original, t.values) && Calls(h, caller, addr, [], t.gasPool, 0, w, r)
    ensures var t := Cases()[k];
      && (if t.fails then r.err == Some(OutOfGas) else r.err == None)
      && t.gasPool - r.gas == t.used && r.world.refund == t.refund
  {
    hide Calls, Play, Code, Cases;
    CasesPlay(k);
    var t := Cases()[k];
    StoreCall(h, caller, addr, t.values, t.gasPool, t.original, w, r);
  }
}

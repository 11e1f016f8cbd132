/** vm/interpreter.go, the call and create entry points of vm/evm.go, and the instructions of
    vm/instructions.go that re-enter them.

    The methods are mutually recursive; gas is the measure that ends them.  Each promises the same things of
    every run below it: no gas is made, depth and readOnly come back, snapshots taken before stay valid, warm
    addresses stay warm, read-only stretches change nothing visible, the refund counter covers what was cleared,
    and the call tree returns to where it stood. */
module Interpreter {
  import opened Uint
  import opened FrameMemory
  import opened JumpTable
  import opened Sstore
  import opened StateDb
  import opened CallTree
  import opened EvmState
  import opened GasTable
  import opened Instructions
  import opened Semantics
  import opened Jumpdest
  import Bitmap

  const MAX_CODE_SIZE: nat := 24_576
  const CREATE_DATA_GAS: nat := 200

  // ---- snapshots

  /** A snapshot was taken in state before, and everything since has only stacked on top of it. */
  ghost predicate OnTop(before: Db, snapshot: nat, now: Db) {
    before.revisions + [Revision(snapshot, before.world)] <= now.revisions && now.Valid()
  }

  /** The end of every call: a failed one goes back to its snapshot, and keeps its gas only when it reverted. */
  method Settle(evm: EVM, ghost before: Db, snapshot: nat, gas: U64, err: Option<Err>) returns (leftOver: U64)
    requires OnTop(before, snapshot, evm.db)
    modifies evm`db
    ensures err == None ==> evm.db == old(evm.db)
    ensures err.Some? ==> evm.db == Db(before.world, before.revisions, old(evm.db.nextId)) && evm.db.Valid()
    ensures leftOver == if err == None || err == Some(Reverted) then gas else 0
  {
    leftOver := gas;
    if err != None {
      RevertsExactly(before.revisions, snapshot, before.world, evm.db);
      evm.db := evm.db.RevertTo(snapshot);
      if err != Some(Reverted) {
        leftOver := 0;
      }
    }
  }

  /** RunPrecompiledContract */
  method RunPrecompiled(env: Env, addr: Address, input: Bytes, gas: U64)
    returns (ret: seq<Byte>, remaining: U64, err: Option<Err>)
    ensures remaining <= gas
    ensures gas < env.precompileGas(addr, input) ==> ret == [] && remaining == 0 && err == Some(OutOfGas)
    ensures gas >= env.precompileGas(addr, input) ==>
      remaining == gas - env.precompileGas(addr, input) && (ret, err) == env.precompileRun(addr, input)
  {
    var cost := env.precompileGas(addr, input);
    if gas < cost {
      return [], 0, Some(OutOfGas);
    }
    var out := env.precompileRun(addr, input);
    return out.0, gas - cost, out.1;
  }

  /** NewContract: a frame called from outside starts an empty map of jump analyses, others share their caller's. */
  method FreshMap(evm: EVM)
    requires evm.jumpdests.Valid()
    modifies evm`jumpdests
    ensures evm.jumpdests.Valid()
    ensures if evm.depth == 0 then fresh(evm.jumpdests) && evm.jumpdests.table == map[]
            else evm.jumpdests == old(evm.jumpdests)
  {
    if evm.depth == 0 {
      evm.jumpdests := new JumpdestMap();
    }
  }

  // ---- the interpreter loop

  /** pc stands on an instruction, not inside the argument of a PUSH. */
  predicate AtInstruction(f: Frame)
    reads f
  {
    !Bitmap.IsData(f.code, f.pc)
  }

  /** So it will once the loop has added one. */
  predicate Lands(f: Frame)
    reads f
  {
    !Bitmap.IsData(f.code, WrapAdd(f.pc, 1))
  }

  /** Every instruction but PUSH is one byte long, under every fork. */
  lemma OneByteLong(fork: Fork, f: Frame)
    requires AtInstruction(f) && !Table(fork, f.GetOp()).exec.Halts() && !Table(fork, f.GetOp()).exec.OpPush?
    ensures f.pc < |f.code| && Lands(f)
  {
    hide Table;
    ZeroStops(fork);
    TableSkips(fork, f.GetOp());
    Bitmap.NextInstruction(f.code, f.pc);
  }

  /** EVMInterpreter.Run */
  method Run(evm: EVM, f: Frame, readOnly: bool) returns (ret: seq<Byte>, err: Option<Err>)
    requires evm.Valid() && f.Valid() && evm.depth <= CALL_DEPTH
    requires f.pc == 0 && f.stack == [] && f.mem.store == []
    requires evm.fork.AtLeast(Berlin) ==> f.address in evm.db.world.accAddresses
    requires f.contract.jumpdests == evm.jumpdests
    modifies evm, evm.jumpdests, f, f.mem, f.contract
    ensures evm.Intact() && (err == None ==> evm.Valid())
    ensures Kept(old(evm.db), old(evm.tree), evm.db, evm.tree, old(evm.readOnly) || readOnly)
    ensures evm.depth == old(evm.depth) && evm.readOnly == old(evm.readOnly) && evm.jumpdests == old(evm.jumpdests)
    ensures f.gas <= old(f.gas) && |ret| <= MAX_SIZE && err != Some(CodeStoreOutOfGas)
    ensures Yields(Ctx(Deeper(old(HostOf(evm)), readOnly), f.caller, f.address, f.value, f.code, f.input), old(f.gas),
                   old(evm.db.world), Answer(ret, err, f.gas, evm.db.world))
    decreases f.gas, 4
  {
    hide From, Kept, RefundBound;
    KeptReflexive(evm.db, evm.tree, evm.readOnly || readOnly);
    evm.depth := evm.depth + 1;
    var sets := readOnly && !evm.readOnly;
    if sets {
      evm.readOnly := true;
    }
    evm.returnData := [];
    ret, err := [], None;
    if |f.code| != 0 {
      ret, err := Loop(evm, f);
    }
    if sets {
      evm.readOnly := false;
    }
    evm.depth := evm.depth - 1;
  }

  lemma KeptReflexive(d: Db, t: Tree, frozen: bool)
    ensures Kept(d, t, d, t, frozen)
  {
  }

  /** Whatever the frame ends with from u on, it ends with from v on. */
  ghost predicate Leads(c: Ctx, v: View, u: View) {
    forall r: Answer :: From(c, u, r) ==> From(c, v, r)
  }

  lemma LeadsOn(c: Ctx, v: View, u: View, a: View)
    requires Leads(c, v, u) && Turn(c, u, a, Next) && a.gas < u.gas
    ensures Leads(c, v, a)
  {
    hide Turn, From;
    forall r: Answer | From(c, a, r) ensures From(c, v, r) {
      Arrives(c, u, a, Next, r);
    }
  }

  lemma Arrives(c: Ctx, v: View, a: View, out: Outcome, r: Answer)
    requires Turn(c, v, a, out) && Reaches(c, v, a, out, r)
    ensures From(c, v, r)
  {
    hide Turn, Reaches;
  }

  lemma KeptWarms(d: Db, t: Tree, e: Db, u: Tree, frozen: bool)
    requires Kept(d, t, e, u, frozen)
    ensures d.world.accAddresses <= e.world.accAddresses
  {
  }

  lemma ExtendsReflexive(t: Tree)
    ensures Extends(t, t)
  {
  }

  /** The main loop: it runs until an instruction ends the frame. */
  method Loop(evm: EVM, f: Frame) returns (ret: seq<Byte>, err: Option<Err>)
    requires evm.Valid() && f.Valid() && AtInstruction(f) && 1 <= evm.depth <= CALL_DEPTH + 1
    requires evm.fork.AtLeast(Berlin) ==> f.address in evm.db.world.accAddresses
    requires f.contract.jumpdests == evm.jumpdests
    modifies evm, evm.jumpdests, f, f.mem, f.contract
    ensures evm.Intact() && (err == None ==> evm.Valid())
    ensures Kept(old(evm.db), old(evm.tree), evm.db, evm.tree, evm.readOnly)
    ensures evm.depth == old(evm.depth) && evm.readOnly == old(evm.readOnly) && evm.jumpdests == old(evm.jumpdests)
    ensures f.gas <= old(f.gas) && |ret| <= MAX_SIZE && err != Some(CodeStoreOutOfGas)
    ensures From(CtxOf(evm, f), old(ViewOf(evm, f)), Answer(ret, err, f.gas, evm.db.world))
    decreases f.gas, 3
  {
    hide Turn, From, Kept, RefundBound, Supply, World.Valid, Tree.Valid, Db.Valid, JumpdestMap.Valid, Contract.Own;
    KeptReflexive(evm.db, evm.tree, evm.readOnly);
    ghost var c := CtxOf(evm, f);
    while true
      invariant evm.Valid() && f.Valid() && AtInstruction(f)
      invariant Kept(old(evm.db), old(evm.tree), evm.db, evm.tree, evm.readOnly)
      invariant evm.depth == old(evm.depth) && evm.readOnly == old(evm.readOnly) && evm.jumpdests == old(evm.jumpdests)
      invariant f.gas <= old(f.gas)
      invariant c == CtxOf(evm, f) && Leads(c, old(ViewOf(evm, f)), ViewOf(evm, f))
      decreases f.gas
    {
      KeptWarms(old(evm.db), old(evm.tree), evm.db, evm.tree, evm.readOnly);
      ghost var d, t, v := evm.db, evm.tree, ViewOf(evm, f);
      var out := Step(evm, f);
      KeptTransitive(old(evm.db), old(evm.tree), d, t, evm.db, evm.tree, evm.readOnly);
      match out {
        case Next =>
          LeadsOn(c, old(ViewOf(evm, f)), v, ViewOf(evm, f));
        case Stop(r) =>
          Arrives(c, v, ViewOf(evm, f), out, Answer(r, None, f.gas, evm.db.world));
          return r, None;
        case Fail(e, r) =>
          Arrives(c, v, ViewOf(evm, f), out, Answer(r, Some(e), f.gas, evm.db.world));
          return r, Some(e);
      }
    }
  }

  /** What the checks and charges before an instruction establish for it.  head is the gas at the loop head. */
  ghost predicate Ready(evm: EVM, f: Frame, o: Operation, head: nat)
    reads evm, f, f.mem, f.contract
  {
    // the stack holds what is popped and has room for what is pushed
    && Sound(o) && o.minStack <= |f.stack| <= o.maxStack
    // memory holds every range that is touched
    && f.mem.Settled() && o.memorySize.Fits(f.stack, |f.mem.store|)
    // the jump analysis is of the frame's own code
    && f.Analysed()
    // once a store has happened the refund counter covers it
    && Bounded(evm.fork, AfterStore(evm.db.world, o, f.address, f.stack))
    // something was paid, and a call paid for the gas it hands down and for the stipend
    && f.gas <= head && (!o.exec.Halts() ==> f.gas < head)
    && (o.exec.OpCall? ==>
          && 3 <= |f.stack|
          && f.gas + evm.callGasTemp
               + (if TransfersValue(o.exec.kind, f.stack) then CALL_VALUE_TRANSFER_GAS else 0) < head
          && (evm.fork.AtLeast(Berlin) ==> ToAddress(Back(f.stack, 1)) in evm.db.world.accAddresses))
  }

  /** The memory size an instruction is billed for: whole words. */
  function Billed(m: MemorySize, stack: seq<Word>): (size: nat)
    requires m.Depth() <= |stack|
  {
    match m.Size(stack)
    case None => 0
    case Some(n) => 32 * Words(n)
  }

  /** Exactly the constant and the dynamic price were taken from head, memory grew with zeros to what was billed, and
      the world is as warm as the gas function leaves it. */
  ghost predicate Paid(evm: EVM, f: Frame, o: Operation, w: World, store: seq<Byte>, head: nat)
    requires o.dynamic.Depth() <= |f.stack| && o.memorySize.Depth() <= |f.stack| && (o.exec.OpCall? ==> 1 <= |f.stack|)
    reads evm, f, f.mem
  {
    var size := Billed(o.memorySize, f.stack);
    && size < TWO_64 && f.mem.store == store + Zeros(Max(|store|, size) - |store|)
    && head == f.gas + o.constantGas
         + Price(evm.fork, w, f.address, f.stack, |store|, size, o.dynamic, evm.callGasTemp)
    && evm.db.world == Warmed(evm.fork, w, f.address, f.stack, o.dynamic)
    && (o.exec.OpCall? ==>
          var base := Price(evm.fork, w, f.address, f.stack, |store|, size, o.dynamic, 0);
          evm.callGasTemp == HandedDown(evm.fork, head - o.constantGas, base, Back(f.stack, 0)))
  }

  /** The operands allow a charge and the gas covers it. */
  ghost predicate Chargeable(fork: Fork, w: World, self: Address, stack: seq<Word>, bytes: nat, o: Operation, gas: nat)
    requires o.dynamic.Depth() <= |stack| && o.memorySize.Depth() <= |stack|
  {
    && Measurable(o.memorySize, stack)
    && Payable(fork, w, self, stack, bytes, Billed(o.memorySize, stack), o.dynamic, gas)
  }

  /** The size in whole words is a uint64. */
  ghost predicate Measurable(m: MemorySize, stack: seq<Word>)
    requires m.Depth() <= |stack|
  {
    m.Size(stack).Some? && Billed(m, stack) < TWO_64
  }

  /** The error when the charge fails. */
  ghost function Fault(o: Operation, stack: seq<Word>, gas: nat): (e: Err)
    requires o.memorySize.Depth() <= o.minStack
  {
    if |stack| < o.minStack then StackUnderflow
    else if |stack| > o.maxStack then StackOverflow
    else if o.constantGas <= gas && !Measurable(o.memorySize, stack) then GasUintOverflow
    else OutOfGas
  }

  lemma FitsMonotone(m: MemorySize, stack: seq<Word>, n: nat, k: nat)
    requires m.Depth() <= |stack| && n <= k && m.Fits(stack, n)
    ensures m.Fits(stack, k)
  {
  }

  /** The checks and charges of the loop, in its order: stack, constant gas, memory size, dynamic gas, resize. */
  method Charge(evm: EVM, f: Frame, o: Operation) returns (err: Option<Err>)
    requires Sound(o) && FitsFork(evm.fork, o)
    requires f.Valid() && Bounded(evm.fork, evm.db.world)
    requires evm.fork.AtLeast(Berlin) ==> f.address in evm.db.world.accAddresses
    modifies evm`db, evm`callGasTemp, f`gas, f.mem
    ensures Metering(old(evm.db), evm.db)
    ensures f.gas <= old(f.gas)
    ensures err == None ==> Ready(evm, f, o, old(f.gas))
    ensures err == None ==> Paid(evm, f, o, old(evm.db.world), old(f.mem.store), old(f.gas))
    ensures err.Some? ==> err.value == Fault(o, f.stack, old(f.gas))
    ensures err == None <==>
      && o.minStack <= |f.stack| <= o.maxStack && o.constantGas <= old(f.gas)
      && Chargeable(evm.fork, old(evm.db.world), f.address, f.stack, old(|f.mem.store|), o, old(f.gas) - o.constantGas)
  {
    hide RefundBound, Fee, ToWordSize, Expansion, Words, StoreCost, StoreMetered, CallBase, Measurable;
    if |f.stack| < o.minStack {
      return Some(StackUnderflow);
    }
    if |f.stack| > o.maxStack {
      return Some(StackOverflow);
    }
    var ok := f.UseGas(o.constantGas);
    if !ok {
      return Some(OutOfGas);
    }
    if o.dynamic == NoDynamic {
      NothingBilled(f.stack);
      return None;
    }
    err := ChargeDynamic(evm, f, o, old(f.gas));
  }

  /** The part of the charge that depends on the operands. */
  method ChargeDynamic(evm: EVM, f: Frame, o: Operation, ghost head: U64) returns (err: Option<Err>)
    requires Sound(o) && FitsFork(evm.fork, o) && o.minStack <= |f.stack| <= o.maxStack
    requires f.mem.Settled() && f.Analysed() && Bounded(evm.fork, evm.db.world) && f.gas + o.constantGas == head
    requires evm.fork.AtLeast(Berlin) ==> f.address in evm.db.world.accAddresses
    modifies evm`db, evm`callGasTemp, f`gas, f.mem
    ensures Metering(old(evm.db), evm.db)
    ensures f.gas <= old(f.gas)
    ensures err == None ==> Ready(evm, f, o, head)
    ensures err == None ==> Paid(evm, f, o, old(evm.db.world), old(f.mem.store), head)
    ensures err == None <==>
      Chargeable(evm.fork, old(evm.db.world), f.address, f.stack, old(|f.mem.store|), o, old(f.gas))
    ensures err.Some? ==> err.value == if Measurable(o.memorySize, f.stack) then OutOfGas else GasUintOverflow
  {
    hide RefundBound, Fee, Expansion, Billed, Measurable, Price, Payable, Warmed, HandedDown, Bounded, AfterStore,
      Sound, MemorySize.Fits, Contract.Own, Exec.Halts, Dynamic.AlwaysCharges, Dynamic.PaysMemory, Dynamic.Depth;
    SoundParts(o);
    var needed := MemoryNeeded(o.memorySize, f.stack);
    if needed == None {
      return Some(GasUintOverflow);
    }
    var size := needed.value;
    var cost := DynamicGas(evm, f, o, size);
    if cost == None {
      return Some(OutOfGas);
    }
    var ok := f.UseGas(cost.value);
    if !ok {
      return Some(OutOfGas);
    }
    if size > 0 {
      f.mem.Resize(size);
    }
    FitsMonotone(o.memorySize, f.stack, size, |f.mem.store|);
    if o.exec.OpCall? {
      CallWarms(evm.fork, old(evm.db.world), f.address, f.stack, o.dynamic);
    }
    return None;
  }

  /** Sound, in the parts the charge needs. */
  lemma SoundParts(o: Operation)
    requires Sound(o)
    ensures o.dynamic.Depth() <= o.minStack && o.memorySize.Depth() <= o.minStack
    ensures o.dynamic.PaysMemory() || o.memorySize == NoMemory
    ensures !o.exec.Halts() ==> o.constantGas > 0 || o.dynamic.AlwaysCharges()
    ensures (o.exec.OpCall? <==> o.dynamic.CallGas?) && (o.exec.OpCall? ==> o.exec.kind == o.dynamic.kind)
    ensures o.exec.OpCall? ==> 3 <= o.minStack && o.constantGas > 0
  {
  }

  lemma CallWarms(fork: Fork, w: World, self: Address, stack: seq<Word>, dynamic: Dynamic)
    requires dynamic.CallGas? && dynamic.Depth() <= |stack|
    ensures dynamic.cold ==> ToAddress(Back(stack, 1)) in Warmed(fork, w, self, stack, dynamic).accAddresses
  {
  }

  /** The requested size in whole words; None is the overflow error. */
  method MemoryNeeded(m: MemorySize, stack: seq<Word>) returns (size: Option<U64>)
    requires m.Depth() <= |stack|
    ensures size.Some? ==> size.value == Billed(m, stack) && size.value % 32 == 0 && m.Fits(stack, size.value)
    ensures size == None ==> forall n: U64 :: n % 32 == 0 ==> !m.Fits(stack, n)
    ensures size.Some? <==> Measurable(m, stack)
    ensures m == NoMemory ==> size == Some(0)
  {
    if m == NoMemory {
      return Some(0);
    }
    var memSize := m.Size(stack);
    if memSize == None {
      return None;
    }
    WordsExact(memSize.value);
    size := SafeMul(ToWordSize(memSize.value), 32);
    if size.Some? {
      FitsMonotone(m, stack, memSize.value, size.value);
    }
  }

  lemma NothingBilled(stack: seq<Word>)
    ensures Billed(NoMemory, stack) == 0 && Measurable(NoMemory, stack)
  {
  }

  // ---- the charge, as Semantics has it

  /** The memory a table entry is billed for is what the instruction needs. */
  lemma FootprintNeeds(e: Exec, s: seq<Word>)
    requires e.Footprint().Depth() <= |s|
    ensures Measurable(e.Footprint(), s) <==> Room(e, s) < TWO_64
    ensures Measurable(e.Footprint(), s) ==> Billed(e.Footprint(), s) == Room(e, s)
  {
    hide Need, MemorySize.Size, MemorySize.Depth, Exec.Footprint;
    FootprintSize(e, s);
  }

  /** A size that fits uint64. */
  ghost function Sized(n: nat): (r: Option<U64>) {
    if n < TWO_64 then Some(n) else None
  }

  lemma SizeIs(m: MemorySize, s: seq<Word>)
    requires m.Depth() <= |s|
    ensures m.Size(s) == Sized(
      match m
      case NoMemory => 0
      case Range(off, len) => Extent(Back(s, off), Back(s, len))
      case Fixed(off, size) => Extent(Back(s, off), size)
      case Mcopy => Max(Extent(Back(s, 0), Back(s, 2)), Extent(Back(s, 1), Back(s, 2)))
      case TwoRanges(off, len, off2, len2) =>
        Max(Extent(Back(s, off), Back(s, len)), Extent(Back(s, off2), Back(s, len2))))
  {
    hide MemorySize.Fits;
  }

  lemma FootprintSize(e: Exec, s: seq<Word>)
    requires e.Footprint().Depth() <= |s|
    ensures e.Footprint().Size(s) == Sized(Need(e, s))
  {
    hide MemorySize.Fits, MemorySize.Size, Sized;
    SizeIs(e.Footprint(), s);
  }

  /** The checks of the loop pass exactly when the frame can afford the opcode; otherwise the error is the one named. */
  lemma AffordsIs(c: Ctx, v: View, o: Operation)
    requires Sound(o) && Matches(c.host.fork, Bitmap.OpAt(c.code, v.pc), o)
    ensures Affords(c, v) <==>
      && o.minStack <= |v.stack| <= o.maxStack && o.constantGas <= v.gas
      && Chargeable(c.host.fork, v.world, c.address, v.stack, |v.store|, o, v.gas - o.constantGas)
    ensures !Affords(c, v) ==> Refusal(c, v) == Fault(o, v.stack, v.gas)
  {
    hide Opcode, Exec.Pops, Exec.Pushes, Exec.Footprint, Payable, Measurable, Billed, Room, Dynamic.Depth,
      MemorySize.Depth, MemorySize.Size;
    if o.minStack <= |v.stack| {
      FootprintNeeds(o.exec, v.stack);
    }
  }

  /** What is left after the charge is the frame Semantics goes on with. */
  lemma PaidIsCharged(evm: EVM, f: Frame, o: Operation, v: View)
    requires Sound(o) && Matches(evm.fork, Bitmap.OpAt(f.code, v.pc), o)
    requires Affords(CtxOf(evm, f), v) && o.minStack <= |f.stack|
    requires v.stack == f.stack && v.pc == f.pc && v.returnData == evm.returnData
    requires (o.exec.OpCall? ==> 1 <= |f.stack|) && Paid(evm, f, o, v.world, v.store, v.gas)
    ensures Charged(CtxOf(evm, f), v) == ViewOf(evm, f)
    ensures o.exec.OpCall? ==> Handed(CtxOf(evm, f), v) == evm.callGasTemp
  {
    hide Opcode, Exec.Pops, Exec.Pushes, Exec.Footprint, Payable, Measurable, Billed, Room, Dynamic.Depth,
      MemorySize.Depth, MemorySize.Size, Price, Warmed, HandedDown;
    FootprintNeeds(o.exec, f.stack);
    HandsDownNothing(evm.fork, v.world, f.address, f.stack, |v.store|, Billed(o.memorySize, f.stack), o.dynamic,
                     evm.callGasTemp);
  }

  lemma RefusedTurn(c: Ctx, v: View, a: View, err: Err)
    requires !Affords(c, v) && err == Refusal(c, v) && a.gas <= v.gas
    requires a.world == v.world.(refund := a.world.refund, accAddresses := a.world.accAddresses,
                                 accSlots := a.world.accSlots)
    ensures Turn(c, v, a, Fail(err, []))
  {
    hide Affords, Refusal;
  }

  lemma PaidTurn(c: Ctx, v: View, a: View, out: Outcome, handed: nat)
    requires Affords(c, v) && (RowOf(c, v).exec.OpCall? ==> handed == Handed(c, v))
    requires Does(c, Bitmap.OpAt(c.code, v.pc), RowOf(c, v).exec, v.gas, handed, Charged(c, v), a, out)
    ensures Turn(c, v, a, out)
  {
    hide Affords, Handed, Charged, CallTurn, CreateTurn, LocalTurn, RowOf;
  }

  /** One turn of the loop. */
  method Step(evm: EVM, f: Frame) returns (out: Outcome)
    requires evm.Valid() && f.Valid() && AtInstruction(f) && 1 <= evm.depth <= CALL_DEPTH + 1
    requires evm.fork.AtLeast(Berlin) ==> f.address in evm.db.world.accAddresses
    requires f.contract.jumpdests == evm.jumpdests
    modifies evm, evm.jumpdests, f, f.mem, f.contract
    ensures evm.Intact() && (!out.Fail? ==> evm.Valid())
    ensures Kept(old(evm.db), old(evm.tree), evm.db, evm.tree, evm.readOnly)
    ensures evm.depth == old(evm.depth) && evm.readOnly == old(evm.readOnly) && evm.jumpdests == old(evm.jumpdests)
    ensures f.gas <= old(f.gas) && (out.Next? ==> f.gas < old(f.gas) && f.Valid() && AtInstruction(f))
    ensures !out.Next? ==> |out.ret| <= MAX_SIZE
    ensures out.Fail? ==> out.err != CodeStoreOutOfGas
    ensures Turn(CtxOf(evm, f), old(ViewOf(evm, f)), ViewOf(evm, f), out)
    decreases f.gas, 2
  {
    hide Extends, RefundBound, Sound, Table, Turn, Does, Affords, Charged, Handed, Refusal, Paid, Ready, Opcode,
      Chargeable, Kept, Bounded;
    var op := f.GetOp();
    var o := Table(evm.fork, op);
    TableFitsFork(evm.fork, op);
    TableMatches(evm.fork, op);
    ghost var c, v := CtxOf(evm, f), ViewOf(evm, f);
    ghost var d, t := evm.db, evm.tree;
    AffordsIs(c, v, o);
    var err := Charge(evm, f, o);
    MeteringKeeps(d, t, evm.db, evm.readOnly);
    if err != None {
      RefusedTurn(c, v, ViewOf(evm, f), err.value);
      return Fail(err.value, []);
    }
    CallPops(o);
    PaidIsCharged(evm, f, o, v);
    ghost var e, handed := evm.db, evm.callGasTemp;
    out := Execute(evm, f, op, o, v.gas);
    KeptTransitive(d, t, e, t, evm.db, evm.tree, evm.readOnly);
    if out.Next? {
      f.pc := WrapAdd(f.pc, 1);
    }
    PaidTurn(c, v, ViewOf(evm, f), out, handed);
  }

  lemma CallPops(o: Operation)
    requires Sound(o)
    ensures o.exec.OpCall? ==> 6 <= o.minStack
  {
  }

  lemma MeteringKeeps(d: Db, t: Tree, e: Db, frozen: bool)
    requires Metering(d, e)
    ensures Kept(d, t, e, t, frozen)
  {
    ExtendsReflexive(t);
  }

  /** The instruction itself. */
  method Execute(evm: EVM, f: Frame, op: Byte, o: Operation, ghost head: U64) returns (out: Outcome)
    requires evm.Intact() && 1 <= evm.depth <= CALL_DEPTH + 1
    requires o == Table(evm.fork, op) && op == f.GetOp() && Ready(evm, f, o, head) && AtInstruction(f)
    requires evm.fork.AtLeast(Berlin) ==> f.address in evm.db.world.accAddresses
    requires f.contract.jumpdests == evm.jumpdests
    modifies evm, evm.jumpdests, f, f.mem, f.contract
    ensures evm.Intact() && (!out.Fail? ==> evm.Valid())
    ensures Kept(old(evm.db), old(evm.tree), evm.db, evm.tree, evm.readOnly)
    ensures evm.depth == old(evm.depth) && evm.readOnly == old(evm.readOnly) && evm.jumpdests == old(evm.jumpdests)
    ensures f.gas <= head && (out.Next? ==> f.gas < head && f.Valid() && Lands(f))
    ensures !out.Next? ==> |out.ret| <= MAX_SIZE
    ensures out.Fail? ==> out.err != CodeStoreOutOfGas
    ensures Does(CtxOf(evm, f), op, o.exec, head, old(evm.callGasTemp), old(ViewOf(evm, f)), Ahead(evm, f, out), out)
    decreases head, 1
  {
    hide Kept, Table, RefundBound, CallTurn, CreateTurn, LocalTurn;
    if o.exec.OpCall? || o.exec.OpCreate? || o.exec.OpCreate2? {
      OneByteLong(evm.fork, f);
    }
    if o.exec.OpCall? {
      out := ExecuteCall(evm, f, o.exec.kind, o, head);
    } else if o.exec.OpCreate? || o.exec.OpCreate2? {
      out := ExecuteCreate(evm, f, o, head);
    } else {
      out := ExecuteLocal(evm, f, op, o, head);
    }
  }

  /** The instructions that stay in the frame. */
  method ExecuteLocal(evm: EVM, f: Frame, op: Byte, o: Operation, ghost head: U64) returns (out: Outcome)
    requires evm.Intact()
    requires o == Table(evm.fork, op) && op == f.GetOp() && Ready(evm, f, o, head) && AtInstruction(f)
    requires !o.exec.OpCall? && !o.exec.OpCreate? && !o.exec.OpCreate2?
    requires f.contract.jumpdests == evm.jumpdests
    modifies evm`db, evm`returnData, f, f.mem`store, f.contract`analysis, evm.jumpdests
    ensures evm.Intact() && (!out.Fail? ==> evm.Valid())
    ensures Kept(old(evm.db), old(evm.tree), evm.db, evm.tree, evm.readOnly)
    ensures f.gas == old(f.gas) && (out.Next? ==> f.gas < head && f.Valid() && Lands(f))
    ensures !out.Next? ==> |out.ret| <= MAX_SIZE
    ensures out.Fail? ==> out.err != CodeStoreOutOfGas
    ensures LocalTurn(CtxOf(evm, f), op, o.exec, old(ViewOf(evm, f)), Ahead(evm, f, out), out)
  {
    hide Table, RefundBound, Extends, Fee, Sound, HaltTurn, StateTurn, MemoryTurn, FlowTurn, StackTurn;
    ExtendsReflexive(evm.tree);
    if !o.exec.Halts() && !o.exec.OpPush? {
      OneByteLong(evm.fork, f);
    }
    if o.exec.Halts() {
      out := LocalHalt(evm, f, o, head);
    } else if o.exec.OpSstore? || o.exec.OpTstore? || o.exec.OpLog? {
      out := LocalState(evm, f, o, head);
    } else if o.exec.Footprint() != NoMemory {
      out := LocalMemory(evm, f, o, head);
    } else if o.exec.OpPush? || o.exec.OpJump? || o.exec.OpJumpi? || o.exec.OpJumpdest? {
      ZeroStops(evm.fork);
      TableSkips(evm.fork, op);
      out := LocalFlow(evm, f, o, head);
    } else {
      out := LocalStack(evm, f, op, o, head);
    }
  }

  /** STOP, RETURN, REVERT, SELFDESTRUCT, undefined. */
  method LocalHalt(evm: EVM, f: Frame, o: Operation, ghost head: U64) returns (out: Outcome)
    requires evm.Intact()
    requires Ready(evm, f, o, head)
    requires o.exec.Halts()
    modifies evm`db, evm`returnData
    ensures evm.Intact() && (!out.Fail? ==> evm.Valid())
    ensures Kept(old(evm.db), old(evm.tree), evm.db, evm.tree, evm.readOnly)
    ensures !out.Next? && |out.ret| <= MAX_SIZE
    ensures out.Fail? ==> out.err != CodeStoreOutOfGas
    ensures HaltTurn(CtxOf(evm, f), o.exec, old(ViewOf(evm, f)), Ahead(evm, f, out), out)
  {
    hide RefundBound, Extends, Fee, Supply, HaltTurn;
    ExtendsReflexive(evm.tree);
    if o.exec.OpSelfdestruct? {
      SelfDestructSupply(evm.db.world, f.address, ToAddress(Back(f.stack, 0)));
    }
    out := ExecuteHalt(evm, f, o.exec);
  }

  /** SSTORE, TSTORE, LOG. */
  method LocalState(evm: EVM, f: Frame, o: Operation, ghost head: U64) returns (out: Outcome)
    requires evm.Intact()
    requires Ready(evm, f, o, head)
    requires o.exec.OpSstore? || o.exec.OpTstore? || o.exec.OpLog?
    modifies evm`db, f`stack
    ensures evm.Intact() && (!out.Fail? ==> evm.Valid())
    ensures Kept(old(evm.db), old(evm.tree), evm.db, evm.tree, evm.readOnly)
    ensures out.Next? ==> f.Valid()
    ensures !out.Next? ==> |out.ret| <= MAX_SIZE
    ensures out.Fail? ==> out.err != CodeStoreOutOfGas
    ensures StateTurn(CtxOf(evm, f), o.exec, old(ViewOf(evm, f)), Ahead(evm, f, out), out)
  {
    hide RefundBound, Extends, Fee, Put, Increasing, StateTurn, World.Valid, Sound;
    ExtendsReflexive(evm.tree);
    StateOperands(o);
    LogKeepsValid(evm.db.world);
    if o.exec.OpLog? {
      out := ExecuteLog(evm, f, o.exec.topics);
    } else {
      out := ExecuteStore(evm, f, o.exec);
    }
  }

  lemma StateOperands(o: Operation)
    requires Sound(o) && (o.exec.OpSstore? || o.exec.OpTstore? || o.exec.OpLog?)
    ensures o.minStack == (if o.exec.OpLog? then 2 + o.exec.topics else 2) && o.maxStack == STACK_LIMIT + o.minStack
    ensures o.exec.OpLog? ==> o.memorySize == Range(0, 1)
  {
  }

  lemma LogKeepsValid(w: World)
    requires w.Valid()
    ensures forall logs :: w.(vis := w.vis.(logs := logs)).Valid()
  {
  }

  /** Instructions over memory. */
  method LocalMemory(evm: EVM, f: Frame, o: Operation, ghost head: U64) returns (out: Outcome)
    requires evm.Intact()
    requires Ready(evm, f, o, head)
    requires o.exec.Footprint() != NoMemory && !o.exec.Halts() && !o.exec.OpLog?
      && !o.exec.OpCall? && !o.exec.OpCreate? && !o.exec.OpCreate2?
    modifies f`stack, f.mem`store
    ensures evm.Intact() && (!out.Fail? ==> evm.Valid())
    ensures Kept(old(evm.db), old(evm.tree), evm.db, evm.tree, evm.readOnly)
    ensures out.Next? ==> f.Valid()
    ensures !out.Next? ==> |out.ret| <= MAX_SIZE
    ensures out.Fail? ==> out.err != CodeStoreOutOfGas
    ensures MemoryTurn(CtxOf(evm, f), o.exec, old(ViewOf(evm, f)), Ahead(evm, f, out), out)
  {
    hide RefundBound, Extends, Fee, MemoryTurn;
    ExtendsReflexive(evm.tree);
    if o.exec.OpReturnDataCopy? {
      out := ExecuteReturnDataCopy(evm, f);
    } else if o.exec.OpCallDataCopy? || o.exec.OpCodeCopy? || o.exec.OpExtCodeCopy? {
      out := ExecuteCopy(evm, f, o.exec);
    } else {
      out := ExecuteMemory(evm, f, o.exec);
    }
  }

  /** PUSH, JUMP, JUMPI, JUMPDEST: the next instruction is one that the jump analysis calls an instruction. */
  method LocalFlow(evm: EVM, f: Frame, o: Operation, ghost head: U64) returns (out: Outcome)
    requires Ready(evm, f, o, head)
    requires o.exec.OpPush? || o.exec.OpJump? || o.exec.OpJumpi? || o.exec.OpJumpdest?
    requires AtInstruction(f) && f.pc < |f.code| && SkipsItsArgument(f.GetOp(), o)
    requires f.contract.jumpdests == evm.jumpdests && evm.jumpdests.Valid()
    modifies f`stack, f`pc, f.contract`analysis, evm.jumpdests
    ensures evm.jumpdests.Valid() && (out.Next? ==> f.Valid() && Lands(f))
    ensures !out.Next? ==> |out.ret| <= MAX_SIZE
    ensures out.Fail? ==> out.err != CodeStoreOutOfGas
    ensures FlowTurn(CtxOf(evm, f), o.exec, old(ViewOf(evm, f)), Ahead(evm, f, out), out)
  {
    hide RefundBound, Fee;
    Bitmap.NextInstruction(f.code, f.pc);
    ghost var next := f.pc + 1 + if o.exec.OpPush? then o.exec.size else 0;
    assert !Bitmap.IsData(f.code, next);
    out := ExecuteFlow(evm, f, o.exec);
    Bitmap.StartsAreNotData(f.code, 0, WrapAdd(f.pc, 1));
  }

  /** Instructions that only move words. */
  method LocalStack(evm: EVM, f: Frame, op: Byte, o: Operation, ghost head: U64) returns (out: Outcome)
    requires Ready(evm, f, o, head)
    requires o.exec.OpPure? || o.exec.OpPop? || o.exec.OpDup? || o.exec.OpSwap? || o.exec.OpJournal? || o.exec.OpSload?
          || o.exec.OpTload?
    modifies f`stack
    ensures out.Next? ==> f.Valid()
    ensures !out.Next? ==> |out.ret| <= MAX_SIZE
    ensures out.Fail? ==> out.err != CodeStoreOutOfGas
    ensures StackTurn(CtxOf(evm, f), op, o.exec, old(ViewOf(evm, f)), Ahead(evm, f, out), out)
  {
    hide RefundBound, Fee, StackTurn;
    out := ExecuteStack(evm, f, op, o.exec);
  }

  // ---- CALL, CALLCODE, DELEGATECALL, STATICCALL

  /** opCall, opCallCode, opDelegateCall, opStaticCall: the callee starts with less gas than the frame had at the
      loop head, and what it gives back still leaves the frame with less. */
  method ExecuteCall(evm: EVM, f: Frame, kind: CallKind, o: Operation, ghost head: U64) returns (out: Outcome)
    requires evm.Valid() && 1 <= evm.depth <= CALL_DEPTH + 1
    requires o.exec == OpCall(kind) && Ready(evm, f, o, head)
    requires evm.fork.AtLeast(Berlin) ==> f.address in evm.db.world.accAddresses
    requires f.contract.jumpdests == evm.jumpdests
    modifies evm, evm.jumpdests, f, f.mem, f.contract
    ensures evm.Valid() && !out.Stop?
    ensures Kept(old(evm.db), old(evm.tree), evm.db, evm.tree, evm.readOnly)
    ensures evm.depth == old(evm.depth) && evm.readOnly == old(evm.readOnly) && evm.jumpdests == old(evm.jumpdests)
    ensures f.gas <= head && f.pc == old(f.pc) && (out.Next? ==> f.gas < head && f.Valid())
    ensures out.Fail? <==> kind.Call? && evm.readOnly && Back(old(f.stack), 2) != 0
    ensures out.Fail? ==> out == Fail(WriteProtection, [])
    ensures CallTurn(CtxOf(evm, f), kind, head, old(evm.callGasTemp), old(ViewOf(evm, f)), Ahead(evm, f, out), out)
    decreases head, 0
  {
    hide RefundBound, Extends, Fee, Bounded, World.Valid, Db.Valid, Tree.Valid, Supply, Sound, Enters, CallTurn,
      Resumes, Ready, Kept, Contract.Own, JumpdestMap.Valid;
    CallReady(evm, f, kind, o, head);
    KeptReflexive(evm.db, evm.tree, evm.readOnly);
    ghost var c, m, handed := CtxOf(evm, f), ViewOf(evm, f), evm.callGasTemp;
    if kind.Call? && evm.readOnly && Back(f.stack, 2) != 0 {
      CallRefused(c, head, handed, m);
      return Fail(WriteProtection, []);
    }
    var ret, returnGas, err := EnterCall(evm, f, kind);
    ghost var r, entered := Answer(ret, err, returnGas, evm.db.world), ViewOf(evm, f);
    FinishCall(evm, f, kind, ret, returnGas, err);
    ResumesAlike(m, entered, Ahead(evm, f, Next), kind, r);
    CallReturns(c, kind, head, handed, m, Ahead(evm, f, Next), r);
    return Next;
  }

  lemma CallRefused(c: Ctx, head: U64, handed: nat, m: View)
    requires c.host.readOnly && 3 <= |m.stack| && Back(m.stack, 2) != 0
    ensures CallTurn(c, CallKind.Call, head, handed, m, m, Fail(WriteProtection, []))
  {
    hide Enters;
  }

  /** The caller's own part of its state is what it was before the call. */
  lemma ResumesAlike(m: View, n: View, a: View, kind: CallKind, r: Answer)
    requires n == m.(world := n.world, returnData := n.returnData) && ArgsAt(kind) + 4 <= |m.stack|
    ensures var s, k := m.stack, ArgsAt(kind);
      Resumes(n, a, k, Back(s, k + 2), Back(s, k + 3), r) ==> Resumes(m, a, k, Back(s, k + 2), Back(s, k + 3), r)
  {
  }

  lemma CallReturns(c: Ctx, kind: CallKind, head: U64, handed: nat, m: View, a: View, r: Answer)
    requires var k := ArgsAt(kind);
      && k + 4 <= |m.stack| && |m.store| <= MAX_SIZE && Inside(Back(m.stack, k), Back(m.stack, k + 1), |m.store|)
      && handed + Stipend(kind, m.stack) < head
      && Enters(c, kind, ToAddress(Back(m.stack, 1)), Slice(m.store, Back(m.stack, k), Back(m.stack, k + 1)),
                handed + Stipend(kind, m.stack), ValueOf(kind, m.stack), m.world, r)
      && Resumes(m, a, k, Back(m.stack, k + 2), Back(m.stack, k + 3), r)
    requires !(kind.Call? && c.host.readOnly && ValueOf(kind, m.stack) != 0)
    ensures CallTurn(c, kind, head, handed, m, a, Next)
  {
    hide Enters, Resumes;
  }

  /** Stipend a call instruction adds to the gas set aside. */
  function Stipend(kind: CallKind, s: seq<Word>): (n: nat)
    requires 3 <= |s|
  {
    if TransfersValue(kind, s) then CALL_STIPEND else 0
  }

  function ValueOf(kind: CallKind, s: seq<Word>): (n: Word)
    requires 3 <= |s|
  {
    if kind.Call? || kind.CallCode? then Back(s, 2) else 0
  }

  /** Where the operands of the argument range start. */
  function ArgsAt(kind: CallKind): (k: nat) {
    if kind.Call? || kind.CallCode? then 3 else 2
  }

  /** The operands of a call instruction, and the call. */
  method EnterCall(evm: EVM, f: Frame, kind: CallKind) returns (ret: seq<Byte>, returnGas: U64, err: Option<Err>)
    requires evm.Valid()
    requires var k := ArgsAt(kind);
      k + 4 <= |f.stack| && Inside(Back(f.stack, k), Back(f.stack, k + 1), |f.mem.store|) && |f.mem.store| <= MAX_SIZE
    requires kind.Call? && evm.readOnly ==> Back(f.stack, 2) == 0
    requires evm.callGasTemp + Stipend(kind, f.stack) < TWO_64
    requires evm.fork.AtLeast(Berlin) ==>
      f.address in evm.db.world.accAddresses && ToAddress(Back(f.stack, 1)) in evm.db.world.accAddresses
    modifies evm, evm.jumpdests
    ensures evm.Valid() && returnGas <= old(evm.callGasTemp) + Stipend(kind, f.stack)
    ensures Kept(old(evm.db), old(evm.tree), evm.db, evm.tree, evm.readOnly)
    ensures evm.depth == old(evm.depth) && evm.readOnly == old(evm.readOnly)
    ensures evm.jumpdests == old(evm.jumpdests) || (evm.depth == 0 && fresh(evm.jumpdests))
    ensures var s, k := f.stack, ArgsAt(kind);
      Enters(CtxOf(evm, f), kind, ToAddress(Back(s, 1)), Slice(f.mem.store, Back(s, k), Back(s, k + 1)),
             old(evm.callGasTemp) + Stipend(kind, s), ValueOf(kind, s), old(evm.db.world),
             Answer(ret, err, returnGas, evm.db.world))
    decreases evm.callGasTemp + Stipend(kind, f.stack), 8
  {
    hide RefundBound, Extends, Fee, Bounded, World.Valid, Db.Valid, Tree.Valid, Supply, Enters;
    var s, k := f.stack, ArgsAt(kind);
    var to := ToAddress(Back(s, 1));
    var value := ValueOf(kind, s);
    var args := f.mem.Read(Back(s, k), Back(s, k + 1));
    var gas: U64 := evm.callGasTemp;
    if value != 0 {
      gas := gas + CALL_STIPEND;
    }
    ret, returnGas, err := Dispatch(evm, f, kind, to, args, gas, value);
  }

  /** What the charge leaves to a call instruction. */
  lemma CallReady(evm: EVM, f: Frame, kind: CallKind, o: Operation, head: U64)
    requires o.exec == OpCall(kind) && Ready(evm, f, o, head)
    ensures var s, k := f.stack, ArgsAt(kind);
      && k + 4 <= |s| <= STACK_LIMIT + k + 3
      && Inside(Back(s, k), Back(s, k + 1), |f.mem.store|) && Inside(Back(s, k + 2), Back(s, k + 3), |f.mem.store|)
      && f.mem.Settled() && f.Analysed()
      && f.gas + evm.callGasTemp + Stipend(kind, s) < head
      && (evm.fork.AtLeast(Berlin) ==> ToAddress(Back(s, 1)) in evm.db.world.accAddresses)
  {
    hide RefundBound, Fee, Sound;
    CallOperands(o);
  }

  lemma CallOperands(o: Operation)
    requires Sound(o) && o.exec.OpCall?
    ensures var k := ArgsAt(o.exec.kind);
      o.minStack == k + 4 && o.memorySize == TwoRanges(k + 2, k + 3, k, k + 1) && o.maxStack == STACK_LIMIT + k + 3
  {
  }

  /** The end of a call instruction: flag, return data, gas. */
  method FinishCall(evm: EVM, f: Frame, kind: CallKind, ret: seq<Byte>, returnGas: U64, err: Option<Err>)
    requires var k := ArgsAt(kind);
      k + 4 <= |f.stack| && Inside(Back(f.stack, k + 2), Back(f.stack, k + 3), |f.mem.store|)
    requires f.gas + returnGas < TWO_64
    modifies f`stack, f`gas, f.mem`store, evm`returnData
    ensures var s, k := old(f.stack), ArgsAt(kind);
      Resumes(old(ViewOf(evm, f)), Ahead(evm, f, Next), k, Back(s, k + 2), Back(s, k + 3),
              Answer(ret, err, returnGas, evm.db.world))
    ensures f.gas == old(f.gas) + returnGas
    ensures |f.stack| == |old(f.stack)| - ArgsAt(kind) - 3 && |f.mem.store| == |old(f.mem.store)|
  {
    var s, k := f.stack, ArgsAt(kind);
    f.stack := Replaced(s, k + 4, [if err == None then 1 else 0]);
    if err == None || err == Some(Reverted) {
      f.mem.Set(Back(s, k + 2), Back(s, k + 3), ret);
    }
    f.gas := f.gas + returnGas;
    evm.returnData := ret;
  }

  /** The entry point of a call instruction. */
  method Dispatch(evm: EVM, f: Frame, kind: CallKind, to: Address, args: Bytes, gas: U64, value: nat)
    returns (ret: seq<Byte>, returnGas: U64, err: Option<Err>)
    requires evm.Valid() && (kind.Call? && evm.readOnly ==> value == 0)
    requires evm.fork.AtLeast(Berlin) ==> f.address in evm.db.world.accAddresses && to in evm.db.world.accAddresses
    modifies evm, evm.jumpdests
    ensures evm.Valid() && returnGas <= gas
    ensures Kept(old(evm.db), old(evm.tree), evm.db, evm.tree, evm.readOnly)
    ensures evm.depth == old(evm.depth) && evm.readOnly == old(evm.readOnly)
    ensures evm.jumpdests == old(evm.jumpdests) || (evm.depth == 0 && fresh(evm.jumpdests))
    ensures Enters(CtxOf(evm, f), kind, to, args, gas, value, old(evm.db.world),
                   Answer(ret, err, returnGas, evm.db.world))
    decreases gas, 7
  {
    hide RefundBound, Extends, Calls, CallCodes, DelegateCalls, StaticCalls;
    match kind {
      case Call => ret, returnGas, err := Call(evm, f.address, to, args, gas, value);
      case CallCode => ret, returnGas, err := CallCode(evm, f.address, to, args, gas, value);
      case DelegateCall => ret, returnGas, err := DelegateCall(evm, f.address, f.caller, f.value, to, args, gas);
      case StaticCall => ret, returnGas, err := StaticCall(evm, f.address, to, args, gas);
    }
  }

  /** Call goes ahead: not too deep, and the caller can pay. */
  predicate Permitted(depth: nat, w: World, caller: Address, value: nat) {
    depth <= CALL_DEPTH && (value == 0 || value <= w.Balance(caller))
  }

  /** A call that sends nothing to an address where there is nothing. */
  predicate IsNoOp(fork: Fork, w: World, addr: Address, value: nat) {
    !w.Exist(addr) && !IsPrecompile(fork, addr) && fork.AtLeast(SpuriousDragon) && value == 0
  }

  /** The pre-call join point rejects the call.  This is the one failure that keeps the state of Entered. */
  ghost predicate PreRejects(h: Host, w: World, caller: Address, addr: Address, input: Bytes, gas: U64, value: nat) {
    && h.joinPoints && !IsPrecompile(h.fork, addr) && w.Code(addr) != []
    && h.env.preCall(HookCall(caller, addr, input, gas, value)).err.Some?
  }

  /** When the rejection still leaves the state alone: only if nothing moved and the caller was there already. */
  lemma RejectionRestoresIff(w: World, caller: Address, addr: Address, value: nat)
    requires w.Valid() && w.Code(addr) != [] && (value == 0 || value <= w.Balance(caller))
    ensures Entered(w, caller, addr, value) == w <==> caller == addr || (value == 0 && w.Exist(caller))
    ensures caller != addr ==>
      && Entered(w, caller, addr, value).Balance(addr) == w.Balance(addr) + value
      && Entered(w, caller, addr, value).Balance(caller) == w.Balance(caller) - value
  {
    EnteredMoves(w, caller, addr, value);
    var x := Entered(w, caller, addr, value);
    assert w.exist + {caller, addr} == w.exist + {caller};
    if value == 0 {
      assert x == w.(exist := w.exist + {caller});
      assert caller in x.exist;
    } else if caller == addr {
      assert x.vis.balances == w.vis.balances;
    } else {
      assert x.Balance(addr) != w.Balance(addr);
    }
  }

  /** How a call ends.  Refused for depth or balance it changes nothing and costs nothing.  Rejected by the pre-call
      join point it keeps the state of Entered.  Any other failure restores the state and gives back gas only when it
      reverted.  A precompile that succeeds costs its price, and an account without code just receives the value. */
  ghost predicate CallSettled(h: Host, caller: Address, addr: Address, input: Bytes, gas: U64, value: nat, w: World,
                              r: Answer) {
    if !Permitted(h.depth, w, caller, value) then r.err.Some? && r.gas == gas && r.world == w
    else if PreRejects(h, w, caller, addr, input, gas, value) then
      var hook := h.env.preCall(HookCall(caller, addr, input, gas, value));
      r == Answer(hook.ret, hook.err, hook.gas, Entered(w, caller, addr, value))
    else
      && (r.err.Some? ==> r.world == w && (r.err != Some(Reverted) ==> r.gas == 0))
      && (IsPrecompile(h.fork, addr) && r.err == None ==>
            r.world == Entered(w, caller, addr, value) && r.gas == gas - h.env.precompileGas(addr, input))
      && (!IsPrecompile(h.fork, addr) && w.Code(addr) == [] ==>
            r == Answer([], None, gas, if IsNoOp(h.fork, w, addr, value) then w else Entered(w, caller, addr, value)))
  }

  /** Every call of Semantics ends so. */
  lemma CallsSettle(h: Host, caller: Address, addr: Address, input: Bytes, gas: U64, value: nat, w: World, r: Answer)
    requires w.Valid() && Calls(h, caller, addr, input, gas, value, w, r)
    ensures CallSettled(h, caller, addr, input, gas, value, w, r)
  {
    hide Yields, World.Valid;
    AbsentHasNoCode(w, addr);
  }

  /** EVM.Call.  A failed call restores the state it started from exactly, unless the pre-call join point rejected it:
      that return path skips the revert. */
  method Call(evm: EVM, caller: Address, addr: Address, input: Bytes, gas: U64, value: nat)
    returns (ret: seq<Byte>, leftOver: U64, err: Option<Err>)
    requires evm.Valid()
    requires evm.fork.AtLeast(Berlin) ==> addr in evm.db.world.accAddresses
    requires evm.readOnly ==> value == 0
    modifies evm, evm.jumpdests
    ensures evm.Valid() && leftOver <= gas
    ensures Kept(old(evm.db), old(evm.tree), evm.db, evm.tree, evm.readOnly)
    ensures Recorded(old(evm.tree), evm.tree)
    ensures evm.depth == old(evm.depth) && evm.readOnly == old(evm.readOnly)
    ensures evm.jumpdests == old(evm.jumpdests) || (evm.depth == 0 && fresh(evm.jumpdests))
    ensures Calls(HostOf(evm), caller, addr, input, gas, value, old(evm.db.world),
                  Answer(ret, err, leftOver, evm.db.world))
    ensures CallSettled(HostOf(evm), caller, addr, input, gas, value, old(evm.db.world),
                        Answer(ret, err, leftOver, evm.db.world))
    ensures !Permitted(evm.depth, old(evm.db.world), caller, value) ==> evm.db == old(evm.db)
    decreases gas, 6
  {
    hide RefundBound, Calls, CallSettled;
    ghost var t := evm.tree;
    AddKeepsValid(t);
    evm.tree := evm.tree.Add();
    ret, leftOver, err := CallBody(evm, caller, addr, input, gas, value);
    CallExtends(t, evm.tree);
    ExitKeepsValid(evm.tree);
    evm.tree := evm.tree.Exit();
    CallsSettle(HostOf(evm), caller, addr, input, gas, value, old(evm.db.world),
                Answer(ret, err, leftOver, evm.db.world));
  }

  /** A join point that rejects every call. */
  function RejectAll(c: HookCall): (r: HookResult) {
    HookResult([], c.gas, Some(AspectFailed(0)))
  }

  /** An account with 5, and one with code. */
  function TwoAccounts(): (w: World) {
    World(Visible(map[0x1001 := 5], map[], map[0x1002 := [0]], map[], map[], [], {}), {0x1001, 0x1002}, map[],
          0, {0x1002}, {})
  }

  lemma TwoAccountsReady()
    ensures var w := TwoAccounts();
      && w.Valid() && w.committed == w.vis.storage && 0x1002 in w.accAddresses
      && w.Balance(0x1001) == 5 && w.Balance(0x1002) == 0 && w.Code(0x1002) == [0x00]
  {
  }

  /** A call rejected by the pre-call join point: it fails, and 3 of the caller's 5 stay with the contract. */
  method RejectionKeepsTransfer(fork: Fork, env: Env, gas: U64) returns (evm: EVM, err: Option<Err>)
    ensures fresh(evm) && evm.isExecuteJP && err == Some(AspectFailed(0))
    ensures evm.db.world.Balance(0x1001) == 2 && evm.db.world.Balance(0x1002) == 3
  {
    hide RefundBound, World.Valid, Increasing, Tree.Valid, Supply, Entered, TwoAccounts, Calls;
    var w := TwoAccounts();
    TwoAccountsReady();
    assert forall c: HookCall :: RejectAll(c).gas <= c.gas;
    evm := new EVM(fork, env.(preCall := RejectAll), true, w);
    var ret, leftOver;
    ret, leftOver, err := Call(evm, 0x1001, 0x1002, [], gas, 3);
    EnteredMoves(w, 0x1001, 0x1002, 3);
  }

  /** Code that begins with STOP answers at once, with nothing and for nothing. */
  lemma StopYields(c: Ctx, gas: U64, w: World, r: Answer)
    requires c.code != [] && c.code[0] == 0x00 && Yields(c, gas, w, r)
    ensures r == Answer([], None, gas, w)
  {
    hide Turn, From;
    var v := View([], [], 0, gas, w, []);
    var a, out := FirstTurn(c, v, r);
    StopTurn(c, v, a, out);
  }

  lemma FirstTurn(c: Ctx, v: View, r: Answer) returns (a: View, out: Outcome)
    requires From(c, v, r)
    ensures Turn(c, v, a, out) && Reaches(c, v, a, out, r)
  {
    hide Affords, Does, Handed, Charged, RowOf;
    a, out :| Turn(c, v, a, out) && Reaches(c, v, a, out, r);
  }

  lemma StopTurn(c: Ctx, v: View, a: View, out: Outcome)
    requires Bitmap.OpAt(c.code, v.pc) == 0x00 && |v.stack| <= 1024 && Turn(c, v, a, out)
    ensures out == Stop([]) && a.world == v.world && a.gas == v.gas
  {
    hide CallTurn, CreateTurn;
  }

  /** A permitted call of such code, without join points, moves the value and does nothing else. */
  lemma StopCalls(h: Host, caller: Address, addr: Address, input: Bytes, gas: U64, value: nat, w: World, r: Answer)
    requires Calls(h, caller, addr, input, gas, value, w, r) && w.Valid()
    requires !h.joinPoints && Permitted(h.depth, w, caller, value) && !IsPrecompile(h.fork, addr)
    requires w.Code(addr) != [] && w.Code(addr)[0] == 0x00
    ensures r == Answer([], None, gas, Entered(w, caller, addr, value))
  {
    hide Yields, World.Valid;
    AbsentHasNoCode(w, addr);
    var x := Entered(w, caller, addr, value);
    var c := Ctx(Deeper(h, false), caller, addr, value, x.Code(addr), input);
    forall ran: Answer | Yields(c, gas, x, ran) ensures ran == Answer([], None, gas, x) {
      StopYields(c, gas, x, ran);
    }
  }

  /** Without join points the call of RejectionKeepsTransfer goes through: the contract's STOP gives all gas back. */
  method StopKeepsTransfer(fork: Fork, env: Env, gas: U64)
    returns (evm: EVM, ret: seq<Byte>, leftOver: U64, err: Option<Err>)
    ensures fresh(evm) && !evm.isExecuteJP && err == None && ret == [] && leftOver == gas
    ensures evm.db.world.Balance(0x1001) == 2 && evm.db.world.Balance(0x1002) == 3
  {
    hide RefundBound, World.Valid, Increasing, Tree.Valid, Supply, Entered, TwoAccounts, Calls, CallSettled;
    var w := TwoAccounts();
    TwoAccountsReady();
    evm := new EVM(fork, env, false, w);
    ret, leftOver, err := Call(evm, 0x1001, 0x1002, [], gas, 3);
    StopCalls(HostOf(evm), 0x1001, 0x1002, [], gas, 3, w, Answer(ret, err, leftOver, evm.db.world));
    EnteredMoves(w, 0x1001, 0x1002, 3);
  }

  /** EVM.Call between SaveCall and ExitCall. */
  method CallBody(evm: EVM, caller: Address, addr: Address, input: Bytes, gas: U64, value: nat)
    returns (ret: seq<Byte>, leftOver: U64, err: Option<Err>)
    requires evm.Valid()
    requires evm.fork.AtLeast(Berlin) ==> addr in evm.db.world.accAddresses
    requires evm.readOnly ==> value == 0
    modifies evm, evm.jumpdests
    ensures evm.Valid() && leftOver <= gas
    ensures Kept(old(evm.db), old(evm.tree), evm.db, evm.tree, evm.readOnly)
    ensures evm.depth == old(evm.depth) && evm.readOnly == old(evm.readOnly)
    ensures evm.jumpdests == old(evm.jumpdests) || (evm.depth == 0 && fresh(evm.jumpdests))
    ensures Calls(HostOf(evm), caller, addr, input, gas, value, old(evm.db.world),
                  Answer(ret, err, leftOver, evm.db.world))
    ensures !Permitted(evm.depth, old(evm.db.world), caller, value) ==> evm.db == old(evm.db)
    decreases gas, 5
  {
    hide RefundBound, Extends, Increasing, World.Valid, Tree.Valid, Supply, Entered, JumpdestMap.Valid, Calls;
    ExtendsReflexive(evm.tree);
    ghost var before := evm.db;
    CallsAtOnce(HostOf(evm), caller, addr, input, gas, value, before.world);
    if evm.depth > CALL_DEPTH {
      return [], gas, Some(DepthExceeded);
    }
    if value != 0 && evm.db.world.Balance(caller) < value {
      return [], gas, Some(InsufficientBalance);
    }
    var snapshot := evm.db.nextId;
    evm.db := evm.db.Snapshot();
    if !evm.db.world.Exist(addr) && !IsPrecompile(evm.fork, addr) && evm.fork.AtLeast(SpuriousDragon) && value == 0 {
      return [], gas, None;
    }
    evm.db := evm.db.(world := Entered(evm.db.world, caller, addr, value));
    ret, leftOver, err := RunTarget(evm, before, snapshot, caller, addr, input, gas, value);
  }

  /** The calls that end before anything is run. */
  lemma CallsAtOnce(h: Host, caller: Address, addr: Address, input: Bytes, gas: U64, value: nat, w: World)
    ensures h.depth > CALL_DEPTH ==>
      Calls(h, caller, addr, input, gas, value, w, Answer([], Some(DepthExceeded), gas, w))
    ensures h.depth <= CALL_DEPTH && value != 0 && w.Balance(caller) < value ==>
      Calls(h, caller, addr, input, gas, value, w, Answer([], Some(InsufficientBalance), gas, w))
    ensures Permitted(h.depth, w, caller, value) && IsNoOp(h.fork, w, addr, value) ==>
      Calls(h, caller, addr, input, gas, value, w, Answer([], None, gas, w))
  {
    hide Yields;
  }

  /** A call whose callee's code ran. */
  lemma CallsCode(h: Host, caller: Address, addr: Address, input: Bytes, gas: U64, value: nat, w: World, x: World,
                  ran: Answer)
    requires Permitted(h.depth, w, caller, value) && !IsNoOp(h.fork, w, addr, value) && !IsPrecompile(h.fork, addr)
    requires x == Entered(w, caller, addr, value) && x.Code(addr) != []
    requires var pre := PreHook(h, HookCall(caller, addr, input, gas, value));
      && pre.err == None
      && Yields(Ctx(Deeper(h, false), caller, addr, value, x.Code(addr), input), pre.gas, x, ran)
    ensures Calls(h, caller, addr, input, gas, value, w,
                  Settled(w, PostHook(h, HookCall(caller, addr, input, gas, value), ran)))
  {
    hide Yields;
  }

  /** A call that ran no code. */
  lemma CallsNoCode(h: Host, caller: Address, addr: Address, input: Bytes, gas: U64, value: nat, w: World, x: World)
    requires Permitted(h.depth, w, caller, value) && !IsNoOp(h.fork, w, addr, value)
    requires x == Entered(w, caller, addr, value)
    ensures IsPrecompile(h.fork, addr) ==>
      Calls(h, caller, addr, input, gas, value, w, Settled(w, Precompiled(h.env, addr, input, gas, x)))
    ensures !IsPrecompile(h.fork, addr) && x.Code(addr) == [] ==>
      Calls(h, caller, addr, input, gas, value, w, Answer([], None, gas, x))
    ensures var pre := PreHook(h, HookCall(caller, addr, input, gas, value));
      !IsPrecompile(h.fork, addr) && x.Code(addr) != [] && pre.err.Some? ==>
        Calls(h, caller, addr, input, gas, value, w, Answer(pre.ret, pre.err, pre.gas, x))
  {
    hide Yields;
  }

  /** What the call runs once the value has moved, and the end of the call. */
  method RunTarget(evm: EVM, ghost before: Db, snapshot: nat, caller: Address, addr: Address, input: Bytes, gas: U64,
                   value: nat)
    returns (ret: seq<Byte>, leftOver: U64, err: Option<Err>)
    requires evm.Valid() && OnTop(before, snapshot, evm.db) && before.world.Valid() && Bounded(evm.fork, before.world)
    requires Permitted(evm.depth, before.world, caller, value) && !IsNoOp(evm.fork, before.world, addr, value)
    requires evm.db.world == Entered(before.world, caller, addr, value) && (evm.readOnly ==> value == 0)
    requires evm.fork.AtLeast(Berlin) ==> addr in evm.db.world.accAddresses
    modifies evm, evm.jumpdests
    ensures evm.Valid() && leftOver <= gas
    ensures Kept(before, old(evm.tree), evm.db, evm.tree, evm.readOnly)
    ensures evm.depth == old(evm.depth) && evm.readOnly == old(evm.readOnly)
    ensures evm.jumpdests == old(evm.jumpdests) || (evm.depth == 0 && fresh(evm.jumpdests))
    ensures Calls(HostOf(evm), caller, addr, input, gas, value, before.world,
                  Answer(ret, err, leftOver, evm.db.world))
    decreases gas, 5, 1
  {
    hide RefundBound, Extends, Increasing, World.Valid, Tree.Valid, Supply, Entered, JumpdestMap.Valid, Calls, Yields;
    ExtendsReflexive(evm.tree);
    ghost var h, x := HostOf(evm), evm.db.world;
    CallsNoCode(h, caller, addr, input, gas, value, before.world, x);
    var left: U64 := gas;
    if IsPrecompile(evm.fork, addr) {
      ret, left, err := RunPrecompiled(evm.env, addr, input, gas);
    } else if |evm.db.world.Code(addr)| == 0 {
      ret, err := [], None;
    } else {
      if evm.isExecuteJP {
        var pre := evm.env.preCall(HookCall(caller, addr, input, gas, value));
        if pre.err != None {
          return pre.ret, pre.gas, pre.err;
        }
        left := pre.gas;
      }
      ghost var ran;
      ret, left, err, ran := RunWithHook(evm, caller, addr, input, left, value);
      CallsCode(h, caller, addr, input, gas, value, before.world, x, ran);
    }
    leftOver := Settle(evm, before, snapshot, left, err);
  }

  /** The callee's code, and the post-call join point. */
  method RunWithHook(evm: EVM, caller: Address, addr: Address, input: Bytes, gas: U64, value: nat)
    returns (ret: seq<Byte>, left: U64, err: Option<Err>, ghost ran: Answer)
    requires evm.Valid() && evm.depth <= CALL_DEPTH
    requires evm.fork.AtLeast(Berlin) ==> addr in evm.db.world.accAddresses
    modifies evm, evm.jumpdests
    ensures evm.Intact() && (err == None ==> evm.Valid()) && left <= gas
    ensures Kept(old(evm.db), old(evm.tree), evm.db, evm.tree, evm.readOnly)
    ensures evm.depth == old(evm.depth) && evm.readOnly == old(evm.readOnly)
    ensures evm.jumpdests == old(evm.jumpdests) || (evm.depth == 0 && fresh(evm.jumpdests))
    // ran is what the callee's code answered, and the join point makes of it what is returned
    ensures Yields(Ctx(Deeper(HostOf(evm), false), caller, addr, value, old(evm.db.world).Code(addr), input), gas,
                   old(evm.db.world), ran)
    ensures Answer(ret, err, left, evm.db.world)
         == PostHook(HostOf(evm), HookCall(caller, addr, input, gas, value), ran)
    decreases gas, 5, 0
  {
    hide RefundBound, Extends, Yields, Kept;
    FreshMap(evm);
    var code := evm.db.world.Code(addr);
    var f := new Frame(caller, addr, value, gas, code, input, evm.jumpdests, HashOf(code));
    ret, err := Run(evm, f, false);
    left := f.gas;
    ran := Answer(ret, err, left, evm.db.world);
    if evm.isExecuteJP {
      var post := evm.env.postCall(HookCall(caller, addr, input, left, value), ret, err);
      if post.err != None {
        err := post.err;
        if post.err != Some(OutOfGas) {
          ret := post.ret;
        }
      }
      left := post.gas;
    }
  }

  /** The common body of CallCode, DelegateCall and StaticCall after their snapshot: a precompile or the code of addr
      in the context of self. */
  method RunCode(evm: EVM, ghost before: Db, snapshot: nat, caller: Address, self: Address, addr: Address,
                 input: Bytes, gas: U64, value: nat, readOnly: bool)
    returns (ret: seq<Byte>, leftOver: U64, err: Option<Err>)
    requires evm.Valid() && evm.depth <= CALL_DEPTH
    requires evm.fork.AtLeast(Berlin) ==> self in evm.db.world.accAddresses
    requires OnTop(before, snapshot, evm.db)
    requires before.world.Valid() && Bounded(evm.fork, before.world)
    requires before.world.vis == evm.db.world.vis && before.world.accAddresses <= evm.db.world.accAddresses
    modifies evm, evm.jumpdests
    ensures evm.Valid() && leftOver <= gas
    ensures Kept(before, old(evm.tree), evm.db, evm.tree, evm.readOnly || readOnly)
    ensures evm.depth == old(evm.depth) && evm.readOnly == old(evm.readOnly)
    ensures evm.jumpdests == old(evm.jumpdests) || (evm.depth == 0 && fresh(evm.jumpdests))
    ensures Borrows(HostOf(evm), caller, self, addr, input, gas, value, readOnly, before.world, old(evm.db.world),
                    Answer(ret, err, leftOver, evm.db.world))
    decreases gas, 5
  {
    hide RefundBound, Extends, Yields, Borrows;
    ExtendsReflexive(evm.tree);
    ghost var h, x := HostOf(evm), evm.db.world;
    var left: U64 := gas;
    if IsPrecompile(evm.fork, addr) {
      ret, left, err := RunPrecompiled(evm.env, addr, input, gas);
    } else {
      FreshMap(evm);
      var code := evm.db.world.Code(addr);
      var f := new Frame(caller, self, value, gas, code, input, evm.jumpdests, HashOf(code));
      ret, err := Run(evm, f, readOnly);
      left := f.gas;
    }
    ghost var ran := Answer(ret, err, left, evm.db.world);
    leftOver := Settle(evm, before, snapshot, left, err);
    BorrowsAnswer(h, caller, self, addr, input, gas, value, readOnly, before.world, x, ran);
  }

  lemma BorrowsAnswer(h: Host, caller: Address, self: Address, addr: Address, input: Bytes, gas: U64, value: nat,
                      frozen: bool, w: World, x: World, ran: Answer)
    requires if IsPrecompile(h.fork, addr) then ran == Precompiled(h.env, addr, input, gas, x)
             else Yields(Ctx(Deeper(h, frozen), caller, self, value, x.Code(addr), input), gas, x, ran)
    ensures Borrows(h, caller, self, addr, input, gas, value, frozen, w, x, Settled(w, ran))
  {
    hide Yields;
  }

  /** A failed borrowed run restores the state, and keeps gas only when it reverted. */
  lemma BorrowsSettle(h: Host, caller: Address, self: Address, addr: Address, input: Bytes, gas: U64, value: nat,
                      frozen: bool, w: World, x: World, r: Answer)
    requires Borrows(h, caller, self, addr, input, gas, value, frozen, w, x, r) && r.err.Some?
    ensures r.world == w && (r.err != Some(Reverted) ==> r.gas == 0)
  {
    hide Yields;
  }

  /** EVM.CallCode: the code of addr runs as the caller. */
  method CallCode(evm: EVM, caller: Address, addr: Address, input: Bytes, gas: U64, value: nat)
    returns (ret: seq<Byte>, leftOver: U64, err: Option<Err>)
    requires evm.Valid()
    requires evm.fork.AtLeast(Berlin) ==> caller in evm.db.world.accAddresses
    modifies evm, evm.jumpdests
    ensures evm.Valid() && leftOver <= gas
    ensures Kept(old(evm.db), old(evm.tree), evm.db, evm.tree, evm.readOnly)
    ensures evm.depth == old(evm.depth) && evm.readOnly == old(evm.readOnly)
    ensures evm.jumpdests == old(evm.jumpdests) || (evm.depth == 0 && fresh(evm.jumpdests))
    ensures CallCodes(HostOf(evm), caller, addr, input, gas, value, old(evm.db.world),
                      Answer(ret, err, leftOver, evm.db.world))
    ensures if evm.depth > CALL_DEPTH || old(evm.db.world).Balance(caller) < value
            then err.Some? && leftOver == gas && evm.db == old(evm.db)
            else err.Some? ==> evm.db.world == old(evm.db.world) && (err != Some(Reverted) ==> leftOver == 0)
    decreases gas, 6
  {
    hide RefundBound, Extends, Increasing, World.Valid, Tree.Valid, Supply, Borrows;
    ExtendsReflexive(evm.tree);
    if evm.depth > CALL_DEPTH {
      return [], gas, Some(DepthExceeded);
    }
    if evm.db.world.Balance(caller) < value {
      return [], gas, Some(InsufficientBalance);
    }
    ghost var before := evm.db;
    var snapshot := evm.db.nextId;
    evm.db := evm.db.Snapshot();
    ret, leftOver, err := RunCode(evm, before, snapshot, caller, caller, addr, input, gas, value, false);
    if err.Some? {
      BorrowsSettle(HostOf(evm), caller, caller, addr, input, gas, value, false, before.world, before.world,
                    Answer(ret, err, leftOver, evm.db.world));
    }
  }

  /** EVM.DelegateCall: the code of addr runs as self, with self's own caller and value. */
  method DelegateCall(evm: EVM, self: Address, caller: Address, value: nat, addr: Address, input: Bytes, gas: U64)
    returns (ret: seq<Byte>, leftOver: U64, err: Option<Err>)
    requires evm.Valid()
    requires evm.fork.AtLeast(Berlin) ==> self in evm.db.world.accAddresses
    modifies evm, evm.jumpdests
    ensures evm.Valid() && leftOver <= gas
    ensures Kept(old(evm.db), old(evm.tree), evm.db, evm.tree, evm.readOnly)
    ensures evm.depth == old(evm.depth) && evm.readOnly == old(evm.readOnly)
    ensures evm.jumpdests == old(evm.jumpdests) || (evm.depth == 0 && fresh(evm.jumpdests))
    ensures DelegateCalls(HostOf(evm), self, caller, value, addr, input, gas, old(evm.db.world),
                          Answer(ret, err, leftOver, evm.db.world))
    ensures if evm.depth > CALL_DEPTH then err.Some? && leftOver == gas && evm.db == old(evm.db)
            else err.Some? ==> evm.db.world == old(evm.db.world) && (err != Some(Reverted) ==> leftOver == 0)
    decreases gas, 6
  {
    hide RefundBound, Extends, Increasing, World.Valid, Tree.Valid, Supply, Borrows;
    ExtendsReflexive(evm.tree);
    if evm.depth > CALL_DEPTH {
      return [], gas, Some(DepthExceeded);
    }
    ghost var before := evm.db;
    var snapshot := evm.db.nextId;
    evm.db := evm.db.Snapshot();
    ret, leftOver, err := RunCode(evm, before, snapshot, caller, self, addr, input, gas, value, false);
    if err.Some? {
      BorrowsSettle(HostOf(evm), caller, self, addr, input, gas, value, false, before.world, before.world,
                    Answer(ret, err, leftOver, evm.db.world));
    }
  }

  /** EVM.StaticCall: whatever the callee and the calls below it do, the visible state is the one before. */
  method StaticCall(evm: EVM, caller: Address, addr: Address, input: Bytes, gas: U64)
    returns (ret: seq<Byte>, leftOver: U64, err: Option<Err>)
    requires evm.Valid()
    requires evm.fork.AtLeast(Berlin) ==> addr in evm.db.world.accAddresses
    modifies evm, evm.jumpdests
    ensures evm.Valid() && leftOver <= gas
    ensures Kept(old(evm.db), old(evm.tree), evm.db, evm.tree, true)
    ensures evm.db.world.vis == old(evm.db.world.vis)
    ensures evm.depth == old(evm.depth) && evm.readOnly == old(evm.readOnly)
    ensures evm.jumpdests == old(evm.jumpdests) || (evm.depth == 0 && fresh(evm.jumpdests))
    ensures StaticCalls(HostOf(evm), caller, addr, input, gas, old(evm.db.world),
                        Answer(ret, err, leftOver, evm.db.world))
    ensures if evm.depth > CALL_DEPTH then err.Some? && leftOver == gas && evm.db == old(evm.db)
            else err.Some? ==> evm.db.world == old(evm.db.world) && (err != Some(Reverted) ==> leftOver == 0)
    decreases gas, 6
  {
    hide RefundBound, Extends, Increasing, World.Valid, Tree.Valid, Supply, Borrows;
    ExtendsReflexive(evm.tree);
    if evm.depth > CALL_DEPTH {
      return [], gas, Some(DepthExceeded);
    }
    ghost var before := evm.db;
    var snapshot := evm.db.nextId;
    evm.db := evm.db.Snapshot();
    evm.db := evm.db.(world := evm.db.world.AddBalance(addr, 0));
    ghost var x := evm.db.world;
    ret, leftOver, err := RunCode(evm, before, snapshot, caller, addr, addr, input, gas, 0, true);
    if err.Some? {
      BorrowsSettle(HostOf(evm), caller, addr, addr, input, gas, 0, true, before.world, x,
                    Answer(ret, err, leftOver, evm.db.world));
    }
  }

  // ---- CREATE, CREATE2

  /** opCreate and opCreate2 */
  method ExecuteCreate(evm: EVM, f: Frame, o: Operation, ghost head: U64) returns (out: Outcome)
    requires evm.Valid() && 1 <= evm.depth <= CALL_DEPTH + 1
    requires (o.exec.OpCreate? || o.exec.OpCreate2?) && Ready(evm, f, o, head)
    requires f.contract.jumpdests == evm.jumpdests
    modifies evm, evm.jumpdests, f, f.mem, f.contract
    ensures evm.Valid() && !out.Stop?
    ensures Kept(old(evm.db), old(evm.tree), evm.db, evm.tree, evm.readOnly)
    ensures evm.depth == old(evm.depth) && evm.readOnly == old(evm.readOnly) && evm.jumpdests == old(evm.jumpdests)
    ensures f.gas <= head && f.pc == old(f.pc) && (out.Next? ==> f.gas < head && f.Valid())
    ensures out.Fail? <==> evm.readOnly
    ensures out.Fail? ==> out == Fail(WriteProtection, [])
    ensures CreateTurn(CtxOf(evm, f), o.exec, head, old(ViewOf(evm, f)), Ahead(evm, f, out), out)
    decreases head, 0
  {
    hide RefundBound, Extends, Fee, Bounded, World.Valid, Db.Valid, Tree.Valid, Supply, Sound, CreateTurn, MadeBy;
    CreateOperands(o);
    KeptReflexive(evm.db, evm.tree, evm.readOnly);
    ghost var c, m := CtxOf(evm, f), ViewOf(evm, f);
    if evm.readOnly {
      CreateRefused(c, o.exec, head, m);
      return Fail(WriteProtection, []);
    }
    ghost var r := EnterCreate(evm, f, o);
    CreateReturns(c, o, head, m, Ahead(evm, f, Next), r);
    return Next;
  }

  lemma CreateRefused(c: Ctx, e: Exec, head: U64, m: View)
    requires c.host.readOnly
    ensures CreateTurn(c, e, head, m, m, Fail(WriteProtection, []))
  {
    hide Creates;
  }

  /** The creation of a create instruction ended with r, and the frame went from m to a. */
  ghost predicate MadeBy(c: Ctx, o: Operation, m: View, a: View, r: Answer)
    requires OperandsOf(o) <= |m.stack| && |m.store| <= MAX_SIZE
    requires Inside(Back(m.stack, 1), Back(m.stack, 2), |m.store|)
  {
    var s := m.stack;
    var code := Slice(m.store, Back(s, 1), Back(s, 2));
    var address := NewAddress(c.host.env, c.address, o, m.world, s, code);
    && Creates(c.host, c.address, code, CreateGas(c.host.fork, o, m.gas), Back(s, 0), address, m.world, r)
    && a.stack == Replaced(s, OperandsOf(o),
                           [if r.err == None || ToleratesDebt(c.host.fork, o, r.err) then address else 0])
    && a.store == m.store && a.pc == WrapAdd(m.pc, 1) && a.gas == m.gas - CreateGas(c.host.fork, o, m.gas) + r.gas
    && a.world == r.world && a.returnData == if r.err == Some(Reverted) then r.ret else []
  }

  lemma CreateReturns(c: Ctx, o: Operation, head: U64, m: View, a: View, r: Answer)
    requires (o.exec.OpCreate? || o.exec.OpCreate2?) && !c.host.readOnly && m.gas < head
    requires OperandsOf(o) <= |m.stack| && |m.store| <= MAX_SIZE
    requires Inside(Back(m.stack, 1), Back(m.stack, 2), |m.store|) && MadeBy(c, o, m, a, r)
    ensures CreateTurn(c, o.exec, head, m, a, Next)
  {
    hide Creates;
  }

  /** The operands of a create instruction, the creation, and what the frame gets of it. */
  method EnterCreate(evm: EVM, f: Frame, o: Operation) returns (ghost r: Answer)
    requires evm.Valid() && !evm.readOnly && (o.exec.OpCreate? || o.exec.OpCreate2?)
    requires OperandsOf(o) <= |f.stack| && Inside(Back(f.stack, 1), Back(f.stack, 2), |f.mem.store|)
    requires |f.mem.store| <= MAX_SIZE
    modifies evm, evm.jumpdests, f`gas, f`stack
    ensures evm.Valid()
    ensures Kept(old(evm.db), old(evm.tree), evm.db, evm.tree, false)
    ensures evm.depth == old(evm.depth) && evm.readOnly == old(evm.readOnly)
    ensures evm.jumpdests == old(evm.jumpdests) || (evm.depth == 0 && fresh(evm.jumpdests))
    ensures f.gas <= old(f.gas) && |f.stack| == |old(f.stack)| - OperandsOf(o) + 1
    ensures MadeBy(CtxOf(evm, f), o, old(ViewOf(evm, f)), Ahead(evm, f, Next), r)
    decreases f.gas, 7
  {
    hide RefundBound, Bounded, World.Valid, Db.Valid, Tree.Valid, Kept, Recorded, Announced, Creates;
    var s := f.stack;
    var input := f.mem.Read(Back(s, 1), Back(s, 2));
    var gas := CreateGas(evm.fork, o, f.gas);
    var ok := f.UseGas(gas);
    var address := NewAddress(evm.env, f.address, o, evm.db.world, s, input);
    var res, returnGas, suberr := Create(evm, f.address, input, if o.exec.OpCreate2? then HashOf(input) else NoHash,
                                         gas, Back(s, 0), address);
    r := Answer(res, suberr, returnGas, evm.db.world);
    FinishCreate(evm, f, o, address, res, returnGas, suberr);
  }

  /** CREATE takes three operands, CREATE2 also the salt. */
  function OperandsOf(o: Operation): (n: nat) {
    if o.exec.OpCreate2? then 4 else 3
  }

  lemma CreateOperands(o: Operation)
    requires Sound(o) && (o.exec.OpCreate? || o.exec.OpCreate2?)
    ensures o.minStack == OperandsOf(o) && o.memorySize == Range(1, 2)
    ensures o.maxStack == STACK_LIMIT + OperandsOf(o) - 1 && !o.exec.Halts()
  {
  }

  /** The end of a create instruction: the address, the data of a revert, gas. */
  method FinishCreate(evm: EVM, f: Frame, o: Operation, address: Address, res: seq<Byte>, returnGas: U64,
                      err: Option<Err>)
    requires OperandsOf(o) <= |f.stack| && f.gas + returnGas < TWO_64
    modifies f`stack, f`gas, evm`returnData
    ensures f.stack == Replaced(old(f.stack), OperandsOf(o),
                                [if err == None || ToleratesDebt(evm.fork, o, err) then address else 0])
    ensures f.gas == old(f.gas) + returnGas && evm.returnData == if err == Some(Reverted) then res else []
  {
    var done := err == None || ToleratesDebt(evm.fork, o, err);
    f.stack := Replaced(f.stack, OperandsOf(o), [if done then address else 0]);
    f.gas := f.gas + returnGas;
    evm.returnData := if err == Some(Reverted) then res else [];
  }

  /** All but one 64th, since EIP-150 and always for CREATE2. */
  function CreateGas(fork: Fork, o: Operation, gas: U64): (g: U64) {
    if o.exec.OpCreate2? || fork.AtLeast(TangerineWhistle) then gas - gas / 64 else gas
  }

  /** Before Homestead a creation that cannot pay for its code counts as done. */
  predicate ToleratesDebt(fork: Fork, o: Operation, err: Option<Err>) {
    o.exec.OpCreate? && !fork.AtLeast(Homestead) && err == Some(CodeStoreOutOfGas)
  }

  function NewAddress(env: Env, caller: Address, o: Operation, w: World, s: seq<Word>, input: Bytes): (a: Address)
    requires o.exec.OpCreate2? ==> 4 <= |s|
  {
    if o.exec.OpCreate2? then env.create2Address(caller, Back(s, 3), input)
    else env.createAddress(caller, w.Nonce(caller))
  }

  /** A create goes ahead: not too deep, the endowment is there, and the nonce can grow. */
  predicate CreatePermitted(depth: nat, w: World, caller: Address, value: nat) {
    depth <= CALL_DEPTH && value <= w.Balance(caller) && w.Nonce(caller) < MAX_U64
  }

  /** A new account has no cleared slots. */
  lemma BoundedWithout(n: nat, original: Storage, current: Storage, a: Address, refund: nat)
    requires RefundBound(n, original, current, refund)
    ensures RefundBound(n, original - {a}, current - {a}, refund)
  {
    var before, after := Cleared(original, current), Cleared(original - {a}, current - {a});
    assert after <= before;
    CardinalityMonotone(after, before);
    ProductAtMost(n, |after|, n, |before|);
  }

  lemma CardinalityMonotone(s: set<Key>, t: set<Key>)
    requires s <= t
    ensures |s| <= |t|
  {
    assert t == s + (t - s);
  }

  /** How a creation ends.  Refused it changes nothing and costs nothing.  A collision takes all gas.  Any failure
      leaves the caller's nonce one higher and the address warm, nothing else, and gives back gas only when it reverted;
      before Homestead running out of gas for the code is no failure here.  A success has put the returned code in
      place. */
  ghost predicate CreateSettled(h: Host, caller: Address, gas: U64, value: nat, address: Address, w: World, r: Answer) {
    if !CreatePermitted(h.depth, w, caller, value) then r.err.Some? && r.gas == gas && r.world == w
    else
      && (r.err.Some? && (h.fork.AtLeast(Homestead) || r.err != Some(CodeStoreOutOfGas)) ==>
            && r.world == Announced(h.fork, w, caller, address)
            && r.world.Nonce(caller) == w.Nonce(caller) + 1
            && (r.err != Some(Reverted) ==> r.gas == 0))
      && (r.err == None ==> r.world.Code(address) == r.ret)
      && (w.Code(address) != [] ==> r.err == Some(AddressCollision) && r.gas == 0)
      && (w.Nonce(address) != 0 || address == caller ==> r.err == Some(AddressCollision) && r.gas == 0)
  }

  /** Every creation of Semantics ends so. */
  lemma CreatesSettle(h: Host, caller: Address, code: Bytes, gas: U64, value: nat, address: Address, w: World,
                      r: Answer)
    requires Creates(h, caller, code, gas, value, address, w, r) && |r.ret| <= MAX_SIZE
    ensures CreateSettled(h, caller, gas, value, address, w, r)
  {
    hide Yields, Created;
  }

  /** EVM.create: a failed creation keeps the caller's nonce and the warm address, and nothing else. */
  method Create(evm: EVM, caller: Address, code: Bytes, codeHash: Hash, gas: U64, value: nat, address: Address)
    returns (ret: seq<Byte>, leftOver: U64, err: Option<Err>)
    requires evm.Valid() && !evm.readOnly && (codeHash == NoHash || codeHash == HashOf(code))
    modifies evm, evm.jumpdests
    ensures evm.Valid() && leftOver <= gas
    ensures Kept(old(evm.db), old(evm.tree), evm.db, evm.tree, false)
    ensures Recorded(old(evm.tree), evm.tree)
    ensures evm.depth == old(evm.depth) && evm.readOnly == old(evm.readOnly)
    ensures evm.jumpdests == old(evm.jumpdests) || (evm.depth == 0 && fresh(evm.jumpdests))
    ensures Creates(HostOf(evm), caller, code, gas, value, address, old(evm.db.world),
                    Answer(ret, err, leftOver, evm.db.world))
    ensures CreateSettled(HostOf(evm), caller, gas, value, address, old(evm.db.world),
                          Answer(ret, err, leftOver, evm.db.world))
    ensures !CreatePermitted(evm.depth, old(evm.db.world), caller, value) ==> evm.db == old(evm.db)
    decreases gas, 6
  {
    hide RefundBound, Creates, CreateSettled;
    ghost var t := evm.tree;
    AddKeepsValid(t);
    evm.tree := evm.tree.Add();
    ret, leftOver, err := CreateBody(evm, caller, code, codeHash, gas, value, address);
    CallExtends(t, evm.tree);
    ExitKeepsValid(evm.tree);
    evm.tree := evm.tree.Exit();
    CreatesSettle(HostOf(evm), caller, code, gas, value, address, old(evm.db.world),
                  Answer(ret, err, leftOver, evm.db.world));
  }

  /** EVM.create between SaveCall and ExitCall. */
  method CreateBody(evm: EVM, caller: Address, code: Bytes, codeHash: Hash, gas: U64, value: nat, address: Address)
    returns (ret: seq<Byte>, leftOver: U64, err: Option<Err>)
    requires evm.Valid() && !evm.readOnly && (codeHash == NoHash || codeHash == HashOf(code))
    modifies evm, evm.jumpdests
    ensures evm.Valid() && leftOver <= gas && |ret| <= MAX_SIZE
    ensures Kept(old(evm.db), old(evm.tree), evm.db, evm.tree, false)
    ensures evm.depth == old(evm.depth) && evm.readOnly == old(evm.readOnly)
    ensures evm.jumpdests == old(evm.jumpdests) || (evm.depth == 0 && fresh(evm.jumpdests))
    ensures Creates(HostOf(evm), caller, code, gas, value, address, old(evm.db.world),
                    Answer(ret, err, leftOver, evm.db.world))
    ensures !CreatePermitted(evm.depth, old(evm.db.world), caller, value) ==> evm.db == old(evm.db)
    decreases gas, 5
  {
    hide RefundBound, Extends, Increasing, World.Valid, Tree.Valid, Supply, Creates, Yields;
    ExtendsReflexive(evm.tree);
    ghost var h, w := HostOf(evm), evm.db.world;
    CreatesAtOnce(h, caller, code, gas, value, address, w);
    if evm.depth > CALL_DEPTH {
      return [], gas, Some(DepthExceeded);
    }
    if evm.db.world.Balance(caller) < value {
      return [], gas, Some(InsufficientBalance);
    }
    if evm.db.world.Nonce(caller) == MAX_U64 {
      return [], gas, Some(NonceUintOverflow);
    }
    evm.db := evm.db.(world := Announced(evm.fork, evm.db.world, caller, address));
    if evm.db.world.Nonce(address) != 0 || evm.db.world.Code(address) != [] {
      return [], 0, Some(AddressCollision);
    }
    ghost var before := evm.db;
    var snapshot := evm.db.nextId;
    evm.db := evm.db.Snapshot();
    BoundedWithout(ClearRefund(evm.fork), before.world.committed, before.world.vis.storage, address,
                   before.world.refund);
    evm.db := evm.db.(world := Created(evm.fork, evm.db.world, caller, address, value));
    ghost var ran;
    ret, leftOver, err, ran := RunInit(evm, before, snapshot, caller, code, codeHash, gas, value, address);
    CreatesAnswer(h, caller, code, gas, value, address, w, ran);
  }

  /** The creations that end before the init code runs. */
  lemma CreatesAtOnce(h: Host, caller: Address, code: Bytes, gas: U64, value: nat, address: Address, w: World)
    ensures h.depth > CALL_DEPTH ==>
      Creates(h, caller, code, gas, value, address, w, Answer([], Some(DepthExceeded), gas, w))
    ensures h.depth <= CALL_DEPTH && w.Balance(caller) < value ==>
      Creates(h, caller, code, gas, value, address, w, Answer([], Some(InsufficientBalance), gas, w))
    ensures h.depth <= CALL_DEPTH && value <= w.Balance(caller) && w.Nonce(caller) == MAX_U64 ==>
      Creates(h, caller, code, gas, value, address, w, Answer([], Some(NonceUintOverflow), gas, w))
    ensures CreatePermitted(h.depth, w, caller, value) ==>
      var x := Announced(h.fork, w, caller, address);
      x.Nonce(address) != 0 || x.Code(address) != [] ==>
        Creates(h, caller, code, gas, value, address, w, Answer([], Some(AddressCollision), 0, x))
  {
    hide Yields;
  }

  lemma CreatesAnswer(h: Host, caller: Address, code: Bytes, gas: U64, value: nat, address: Address, w: World,
                      ran: Answer)
    requires CreatePermitted(h.depth, w, caller, value)
    requires var x := Announced(h.fork, w, caller, address);
      && x.Nonce(address) == 0 && x.Code(address) == []
      && Yields(Ctx(Deeper(h, false), caller, address, value, code, []), gas,
                Created(h.fork, x, caller, address, value), ran)
    ensures Creates(h, caller, code, gas, value, address, w,
                    Deposited(h.fork, address, Announced(h.fork, w, caller, address), ran))
  {
    hide Yields, Created;
  }

  /** The init code, the deposit of what it returned, and the end of the creation. */
  method RunInit(evm: EVM, ghost before: Db, snapshot: nat, caller: Address, code: Bytes, codeHash: Hash, gas: U64,
                 value: nat, address: Address)
    returns (ret: seq<Byte>, leftOver: U64, err: Option<Err>, ghost ran: Answer)
    requires evm.Valid() && evm.depth <= CALL_DEPTH
    requires evm.fork.AtLeast(Berlin) ==> address in evm.db.world.accAddresses
    requires OnTop(before, snapshot, evm.db)
    requires before.world.Valid() && Bounded(evm.fork, before.world)
    requires before.world.accAddresses <= evm.db.world.accAddresses
    requires Supply(evm.db.world.vis.balances) == Supply(before.world.vis.balances)
    requires codeHash == NoHash || codeHash == HashOf(code)
    modifies evm, evm.jumpdests
    ensures evm.Valid() && leftOver <= gas && |ret| <= MAX_SIZE
    ensures Kept(before, old(evm.tree), evm.db, evm.tree, false)
    ensures evm.depth == old(evm.depth) && evm.readOnly == old(evm.readOnly)
    ensures evm.jumpdests == old(evm.jumpdests) || (evm.depth == 0 && fresh(evm.jumpdests))
    // ran is what the init code answered, and the deposit makes of it what is returned
    ensures Yields(Ctx(Deeper(HostOf(evm), false), caller, address, value, code, []), gas, old(evm.db.world), ran)
    ensures Answer(ret, err, leftOver, evm.db.world) == Deposited(evm.fork, address, before.world, ran)
    decreases gas, 5, 0
  {
    hide RefundBound, Extends, Increasing, World.Valid, Tree.Valid, Supply, Yields;
    FreshMap(evm);
    var f := new Frame(caller, address, value, gas, code, [], evm.jumpdests, codeHash);
    ret, err := Run(evm, f, false);
    ran := Answer(ret, err, f.gas, evm.db.world);
    err := Deposit(evm, f, ret, err);
    leftOver := f.gas;
    if err.Some? && (evm.fork.AtLeast(Homestead) || err != Some(CodeStoreOutOfGas)) {
      leftOver := Settle(evm, before, snapshot, f.gas, err);
    }
  }

  /** Size and prefix checks, the deposit fee, and the new account's code. */
  method Deposit(evm: EVM, f: Frame, ret: seq<Byte>, runErr: Option<Err>) returns (err: Option<Err>)
    requires |ret| <= MAX_SIZE && runErr != Some(CodeStoreOutOfGas)
    modifies evm`db, f`gas
    ensures err == if runErr.Some? then runErr
                   else if evm.fork.AtLeast(SpuriousDragon) && |ret| > 24_576 then Some(MaxCodeSizeExceeded)
                   else if evm.fork.AtLeast(London) && |ret| > 0 && ret[0] == 0xEF then Some(InvalidCode)
                   else if old(f.gas) < 200 * |ret| then Some(CodeStoreOutOfGas)
                   else None
    ensures err.Some? ==> evm.db == old(evm.db) && f.gas == old(f.gas)
    ensures err == None ==>
      && evm.db == old(evm.db).(world := old(evm.db.world).SetCode(f.address, ret))
      && f.gas == old(f.gas) - 200 * |ret|
  {
    err := runErr;
    if err == None && evm.fork.AtLeast(SpuriousDragon) && |ret| > MAX_CODE_SIZE {
      err := Some(MaxCodeSizeExceeded);
    }
    if err == None && |ret| >= 1 && ret[0] == 0xEF && evm.fork.AtLeast(London) {
      err := Some(InvalidCode);
    }
    if err == None {
      var createDataGas: U64 := |ret| * CREATE_DATA_GAS;
      var ok := f.UseGas(createDataGas);
      if ok {
        evm.db := evm.db.(world := evm.db.world.SetCode(f.address, ret));
      } else {
        err := Some(CodeStoreOutOfGas);
      }
    }
  }
}

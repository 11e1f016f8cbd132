/** vm/instructions.go and opTload, opTstore, opMcopy of vm/eips.go: the instructions that do not enter another
    frame.  Memory bounds and stack depth are requires here and are met by the interpreter's checks. */
module Instructions {
  import opened Uint
  import opened FrameMemory
  import opened JumpTable
  import opened Sstore
  import opened StateDb
  import opened EvmState
  import opened GasTable
  import opened Semantics
  import Bitmap
  import Jumpdest

  /** The stack after popping n words and pushing the given ones, the last on top. */
  function Replaced(stack: seq<Word>, n: nat, pushed: seq<Word>): (s: seq<Word>)
    requires n <= |stack|
  {
    stack[..|stack| - n] + pushed
  }

  function ContextOf(evm: EVM, f: Frame): (c: Context)
    reads evm, f, f.mem
  {
    Context(evm.db.world, f.address, f.caller, f.value, f.input, f.code, f.pc, f.gas, f.mem.store, evm.returnData)
  }

  // ---- stack and control

  /** PUSH, JUMP, JUMPI, JUMPDEST.  The loop adds one to pc after the instruction. */
  method ExecuteFlow(ghost evm: EVM, f: Frame, exec: Exec) returns (out: Outcome)
    requires exec.OpPush? || exec.OpJump? || exec.OpJumpi? || exec.OpJumpdest?
    requires exec.Pops() <= |f.stack| && f.pc < |f.code|
    requires exec.OpPush? ==> exec.size <= 32
    requires f.Analysed() && f.contract.jumpdests.Valid()
    modifies f`stack, f`pc, f.contract`analysis, f.contract.jumpdests
    ensures f.Analysed() && f.contract.jumpdests.Valid()
    ensures out == Next || out == Fail(InvalidJump, [])
    ensures out.Next? ==> |f.stack| == old(|f.stack|) - exec.Pops() + exec.Pushes()
    ensures FlowTurn(CtxOf(evm, f), exec, old(ViewOf(evm, f)), Ahead(evm, f, out), out)
  {
    out := Next;
    var n := |f.stack|;
    match exec {
      case OpPush(size) =>
        f.stack := f.stack + [PushValue(f.code, f.pc, size)];
        f.pc := f.pc + size;
      case OpJump =>
        var pos := Back(f.stack, 0);
        f.stack := f.stack[..n - 1];
        var valid := f.contract.ValidJumpdest(pos);
        if !valid {
          return Fail(InvalidJump, []);
        }
        f.pc := WrapSub(pos, 1);
      case OpJumpi =>
        var pos, cond := Back(f.stack, 0), Back(f.stack, 1);
        f.stack := f.stack[..n - 2];
        if cond != 0 {
          var valid := f.contract.ValidJumpdest(pos);
          if !valid {
            return Fail(InvalidJump, []);
          }
          f.pc := WrapSub(pos, 1);
        }
      case OpJumpdest =>
    }
  }

  /** The instructions that only move words. */
  method ExecuteStack(evm: EVM, f: Frame, op: Byte, exec: Exec) returns (out: Outcome)
    requires exec.OpPure? || exec.OpPop? || exec.OpDup? || exec.OpSwap? || exec.OpJournal?
          || exec.OpSload? || exec.OpTload?
    requires exec.Pops() <= |f.stack|
    requires exec.OpDup? ==> exec.n >= 1
    modifies f`stack
    ensures out == Next || out == Fail(JournalFailed, [])
    ensures |f.stack| == old(|f.stack|) - exec.Pops() + exec.Pushes()
    ensures StackTurn(CtxOf(evm, f), op, exec, old(ViewOf(evm, f)), Ahead(evm, f, out), out)
  {
    out := Next;
    assert f.Top(exec.Pops()) == Args(f.stack, exec.Pops());
    var n := |f.stack|;
    match exec {
      case OpPure(pops) =>
        var r := evm.env.evaluate(op, f.Top(pops), ContextOf(evm, f));
        f.stack := Replaced(f.stack, pops, [r]);
      case OpPop =>
        f.stack := f.stack[..n - 1];
      case OpDup(k) =>
        f.stack := f.stack + [f.stack[n - k]];
      case OpSwap(k) =>
        f.stack := f.stack[n - 1 - k := f.stack[n - 1]][n - 1 := f.stack[n - 1 - k]];
      case OpJournal(pops) =>
        var failed := evm.env.journalFails(op, f.Top(pops), ContextOf(evm, f));
        f.stack := Replaced(f.stack, pops, []);
        if failed {
          return Fail(JournalFailed, []);
        }
      case OpSload =>
        f.stack := Replaced(f.stack, 1, [Get(evm.db.world.vis.storage, f.address, Back(f.stack, 0))]);
      case OpTload =>
        f.stack := Replaced(f.stack, 1, [Get(evm.db.world.vis.transient, f.address, Back(f.stack, 0))]);
    }
  }

  // ---- memory

  /** The instructions that read or write memory. */
  method ExecuteMemory(evm: EVM, f: Frame, exec: Exec) returns (out: Outcome)
    requires exec.OpKeccak? || exec.OpMload? || exec.OpMstore? || exec.OpMstore8? || exec.OpMcopy?
    requires exec.Pops() <= |f.stack| && exec.Footprint().Fits(f.stack, |f.mem.store|)
    modifies f`stack, f.mem`store
    ensures out == Next && |f.mem.store| == old(|f.mem.store|)
    ensures |f.stack| == old(|f.stack|) - exec.Pops() + exec.Pushes()
    ensures MemoryTurn(CtxOf(evm, f), exec, old(ViewOf(evm, f)), Ahead(evm, f, out), out)
  {
    hide MemoryTurn, Copied, FromBytes, ToBytes;
    out := Next;
    var s := f.stack;
    ghost var c, m := CtxOf(evm, f), ViewOf(evm, f);
    match exec {
      case OpKeccak =>
        var data := f.mem.Read(Back(s, 0), Back(s, 1));
        f.stack := Replaced(s, 2, [evm.env.keccak(data)]);
        LoadTurns(c, exec, m, Ahead(evm, f, Next));
      case OpMload =>
        var data := f.mem.Read(Back(s, 0), 32);
        f.stack := Replaced(s, 1, [FromWord(data)]);
        LoadTurns(c, exec, m, Ahead(evm, f, Next));
      case OpMstore =>
        f.stack := Replaced(s, 2, []);
        f.mem.Set32(Back(s, 0), Back(s, 1));
        StoreTurns(c, m, Ahead(evm, f, Next));
      case OpMstore8 =>
        f.stack := Replaced(s, 2, []);
        f.mem.store := f.mem.store[Back(s, 0) := Back(s, 1) % 256];
        StoreByteTurns(c, m, Ahead(evm, f, Next));
      case OpMcopy =>
        f.stack := Replaced(s, 3, []);
        CopyWithin(f, Back(s, 0), Back(s, 1), Back(s, 2));
        CopyTurns(c, m, Ahead(evm, f, Next));
    }
  }

  lemma LoadTurns(c: Ctx, e: Exec, m: View, a: View)
    requires e.OpKeccak? || e.OpMload?
    requires e.OpKeccak? ==>
      2 <= |m.stack| && a.stack == Replaced(m.stack, 2,
        [c.host.env.keccak(Slice(m.store, Back(m.stack, 0), Back(m.stack, 1)))])
    requires e.OpMload? ==>
      && 1 <= |m.stack| && |Slice(m.store, Back(m.stack, 0), 32)| == 32
      && a.stack == Replaced(m.stack, 1, [FromWord(Slice(m.store, Back(m.stack, 0), 32))])
    requires a == m.(stack := a.stack, pc := WrapAdd(m.pc, 1))
    ensures MemoryTurn(c, e, m, a, Next)
  {
    hide Copied, FromBytes, ToBytes;
  }

  lemma StoreTurns(c: Ctx, m: View, a: View)
    requires 2 <= |m.stack| && Back(m.stack, 0) + 32 <= |m.store|
    requires var off := Back(m.stack, 0);
      a == m.(stack := Replaced(m.stack, 2, []), pc := WrapAdd(m.pc, 1),
              store := m.store[..off] + ToBytes(Back(m.stack, 1), 32) + m.store[off + 32..])
    ensures MemoryTurn(c, OpMstore, m, a, Next)
  {
    hide ToBytes;
  }

  lemma StoreByteTurns(c: Ctx, m: View, a: View)
    requires 2 <= |m.stack| && Back(m.stack, 0) < |m.store|
    requires a == m.(stack := Replaced(m.stack, 2, []), pc := WrapAdd(m.pc, 1),
                     store := m.store[Back(m.stack, 0) := Back(m.stack, 1) % 256])
    ensures MemoryTurn(c, OpMstore8, m, a, Next)
  {
    hide ToBytes;
  }

  lemma CopyTurns(c: Ctx, m: View, a: View)
    requires 3 <= |m.stack|
    requires a == m.(stack := Replaced(m.stack, 3, []), pc := WrapAdd(m.pc, 1), store := a.store)
    requires Copied(m.store, a.store, Back(m.stack, 0), Back(m.stack, 2), m.store, Back(m.stack, 1))
    ensures MemoryTurn(c, OpMcopy, m, a, Next)
  {
    hide Copied, ToBytes;
  }

  method CopyWithin(f: Frame, dst: Word, src: Word, len: Word)
    requires Inside(dst, len, |f.mem.store|) && Inside(src, len, |f.mem.store|)
    modifies f.mem`store
    ensures Copied(old(f.mem.store), f.mem.store, dst, len, old(f.mem.store), src)
  {
    f.mem.Copy(dst, src, len);
  }

  /** 32 bytes as a word. */
  function FromWord(b: seq<Byte>): (w: Word)
    requires |b| == 32
  {
    FromBytesFits(b);
    WordRange();
    FromBytes(b)
  }

  /** Where the operands of a copy start: EXTCODECOPY has the account first. */
  function CopyAt(exec: Exec): (k: nat) {
    if exec.OpExtCodeCopy? then 1 else 0
  }

  /** What is copied from. */
  function CopySource(w: World, f: Frame, exec: Exec, account: Word): (data: Bytes) {
    if exec.OpCallDataCopy? then f.input else if exec.OpCodeCopy? then f.code else w.Code(ToAddress(account))
  }

  /** CALLDATACOPY, CODECOPY and EXTCODECOPY: memory offset, data offset and length. */
  method ExecuteCopy(evm: EVM, f: Frame, exec: Exec) returns (out: Outcome)
    requires exec.OpCallDataCopy? || exec.OpCodeCopy? || exec.OpExtCodeCopy?
    requires CopyAt(exec) + 3 <= |f.stack| && |f.mem.store| <= MAX_SIZE
    requires Inside(Back(f.stack, CopyAt(exec)), Back(f.stack, CopyAt(exec) + 2), |f.mem.store|)
    modifies f`stack, f.mem`store
    ensures out == Next && |f.mem.store| == old(|f.mem.store|)
    ensures f.stack == Replaced(old(f.stack), CopyAt(exec) + 3, [])
    ensures MemoryTurn(CtxOf(evm, f), exec, old(ViewOf(evm, f)), Ahead(evm, f, out), out)
  {
    hide Copied, ToAddress;
    out := Next;
    var s, k := f.stack, CopyAt(exec);
    f.stack := Replaced(s, k + 3, []);
    CopyData(f, Back(s, k), CopySource(evm.db.world, f, exec, Back(s, 0)), Back(s, k + 1), Back(s, k + 2));
  }

  /** The common tail: an offset beyond uint64 reads as zeros, and getData pads as promised here. */
  method CopyData(f: Frame, memOffset: Word, data: Bytes, dataOffset: Word, length: Word)
    requires Inside(memOffset, length, |f.mem.store|) && |f.mem.store| <= MAX_SIZE
    modifies f.mem`store
    ensures Copied(old(f.mem.store), f.mem.store, memOffset, length, data, dataOffset)
  {
    var offset: U64 := if dataOffset >= TWO_64 then MAX_U64 else dataOffset;
    GetDataRightIff(data, offset, length);
    f.mem.Set(memOffset, length, GetData(data, offset, length).value);
  }

  /** RETURNDATACOPY: reading past the buffer is an error; the size function has ruled out a wrap of the sum. */
  method ExecuteReturnDataCopy(evm: EVM, f: Frame) returns (out: Outcome)
    requires 3 <= |f.stack| && Range(0, 2).Fits(f.stack, |f.mem.store|)
    requires |f.mem.store| <= MAX_SIZE
    modifies f`stack, f.mem`store
    ensures f.stack == Replaced(old(f.stack), 3, [])
    ensures |f.mem.store| == old(|f.mem.store|)
    ensures MemoryTurn(CtxOf(evm, f), OpReturnDataCopy, old(ViewOf(evm, f)), Ahead(evm, f, out), out)
    ensures out == Next || out == Fail(ReturnDataOutOfBounds, [])
  {
    var s := f.stack;
    f.stack := Replaced(s, 3, []);
    var memOffset, dataOffset, length := Back(s, 0), Back(s, 1), Back(s, 2);
    if dataOffset >= TWO_64 {
      return Fail(ReturnDataOutOfBounds, []);
    }
    var end: Word := dataOffset + length;
    if end >= TWO_64 || |evm.returnData| < end {
      return Fail(ReturnDataOutOfBounds, []);
    }
    f.mem.Set(memOffset, length, evm.returnData[dataOffset..end]);
    return Next;
  }

  // ---- state

  /** opSstore and opTstore: refused in a read-only frame. */
  method ExecuteStore(evm: EVM, f: Frame, exec: Exec) returns (out: Outcome)
    requires (exec.OpSstore? || exec.OpTstore?) && 2 <= |f.stack|
    modifies f`stack, evm`db
    ensures evm.readOnly ==> out == Fail(WriteProtection, []) && evm.db == old(evm.db)
    ensures !evm.readOnly ==> out == Next && f.stack == Replaced(old(f.stack), 2, [])
    ensures !evm.readOnly ==>
      var s, w := old(f.stack), old(evm.db.world);
      evm.db == old(evm.db).(world :=
        if exec.OpSstore? then w.SetState(f.address, Back(s, 0), Back(s, 1))
        else w.SetTransient(f.address, Back(s, 0), Back(s, 1)))
    ensures StateTurn(CtxOf(evm, f), exec, old(ViewOf(evm, f)), Ahead(evm, f, out), out)
  {
    hide Put, StateTurn;
    ghost var c, m := CtxOf(evm, f), ViewOf(evm, f);
    WriteTurns(c, exec, m);
    if evm.readOnly {
      return Fail(WriteProtection, []);
    }
    var s, w := f.stack, evm.db.world;
    if exec.OpSstore? {
      evm.db := evm.db.(world := w.SetState(f.address, Back(s, 0), Back(s, 1)));
    } else {
      evm.db := evm.db.(world := w.SetTransient(f.address, Back(s, 0), Back(s, 1)));
    }
    f.stack := Replaced(s, 2, []);
    return Next;
  }

  lemma WriteTurns(c: Ctx, e: Exec, m: View)
    requires (e.OpSstore? || e.OpTstore?) && 2 <= |m.stack|
    ensures c.host.readOnly ==> StateTurn(c, e, m, m, Fail(WriteProtection, []))
    ensures !c.host.readOnly ==>
      var s := m.stack;
      StateTurn(c, e, m, m.(stack := Replaced(s, 2, []), pc := WrapAdd(m.pc, 1), world :=
        if e.OpSstore? then m.world.SetState(c.address, Back(s, 0), Back(s, 1))
        else m.world.SetTransient(c.address, Back(s, 0), Back(s, 1))), Next)
  {
    hide Put;
  }

  /** makeLog */
  method ExecuteLog(evm: EVM, f: Frame, topics: nat) returns (out: Outcome)
    requires 2 + topics <= |f.stack| && Inside(Back(f.stack, 0), Back(f.stack, 1), |f.mem.store|)
    modifies f`stack, evm`db
    ensures evm.readOnly ==> out == Fail(WriteProtection, []) && evm.db == old(evm.db)
    ensures !evm.readOnly ==> out == Next && f.stack == Replaced(old(f.stack), 2 + topics, [])
    ensures var w := old(evm.db.world);
      evm.db == old(evm.db).(world := w.(vis := w.vis.(logs := evm.db.world.vis.logs)))
    ensures StateTurn(CtxOf(evm, f), OpLog(topics), old(ViewOf(evm, f)), Ahead(evm, f, out), out)
  {
    if evm.readOnly {
      return Fail(WriteProtection, []);
    }
    var s, w := f.stack, evm.db.world;
    assert f.Top(2 + topics) == Args(s, 2 + topics);
    var d := f.mem.Read(Back(s, 0), Back(s, 1));
    evm.db := evm.db.(world := w.AddLog(Log(f.address, f.Top(2 + topics)[2..], d)));
    f.stack := Replaced(s, 2 + topics, []);
    return Next;
  }

  /** One turn of SSTORE under a net-metered rule set, gas function, charge and write: it does to gas, refund counter,
      storage and warm slots exactly what Store does, and fails exactly when Store does. */
  method StoreTurn(evm: EVM, f: Frame, dynamic: Dynamic) returns (ok: bool)
    requires dynamic.IsSstore() && ScheduleOf(evm.fork, dynamic).Some? && 2 <= |f.stack| && !evm.readOnly
    requires Bounded(evm.fork, evm.db.world)
    requires if dynamic.SstoreCold? then dynamic.clearRefund == ClearRefund(evm.fork) else !evm.fork.AtLeast(London)
    requires dynamic.SstoreCold? ==> f.address in evm.db.world.accAddresses
    modifies evm`db, f`gas, f`stack
    ensures var w, x, key := old(evm.db.world), evm.db.world, (f.address, Back(old(f.stack), 0));
      && Store(ScheduleOf(evm.fork, dynamic).value, w.committed, State(old(f.gas), w.refund, w.vis.storage, w.accSlots),
               Write(key, Back(old(f.stack), 1)))
         == (if ok then Some(State(f.gas, x.refund, x.vis.storage, w.accSlots + {key})) else None)
      && (ok ==> x.accSlots == w.accSlots + (if dynamic.SstoreCold? then {key} else {}))
    ensures ok ==> Bounded(evm.fork, evm.db.world)
  {
    hide RefundBound, Bounded, Put, NetCharge, At, Store, StoreCost, StoreRefund, ScheduleOf, StateTurn;
    StoreByCost(evm.fork, dynamic, evm.db.world, (f.address, Back(f.stack, 0)), Back(f.stack, 1), f.gas);
    var cost := SstoreGas(evm, f, dynamic);
    if cost == None {
      return false;
    }
    ok := f.UseGas(cost.value);
    if ok {
      var _ := ExecuteStore(evm, f, OpSstore);
    }
  }

  /** Store in terms of the price the gas function returns. */
  lemma StoreByCost(fork: Fork, dynamic: Dynamic, w: World, key: Key, value: Word, gas: nat)
    requires dynamic.IsSstore() && ScheduleOf(fork, dynamic).Some?
    ensures var p := ScheduleOf(fork, dynamic).value;
      Store(p, w.committed, State(gas, w.refund, w.vis.storage, w.accSlots), Write(key, value))
      == if (!dynamic.SstoreLegacy? && gas <= 2_300) || gas < StoreCost(fork, dynamic, w, key, value) then None
         else Some(State(gas - StoreCost(fork, dynamic, w, key, value),
                         w.refund + StoreRefund(fork, dynamic, w, key, value),
                         Put(w.vis.storage, key.0, key.1, value), w.accSlots + {key}))
  {
    hide Put, At, NetCharge, StoreCost, StoreRefund;
    ScheduleFigures(fork, dynamic, w, key, value);
  }

  /** STOP, RETURN, REVERT, SELFDESTRUCT and undefined opcodes: the frame ends here. */
  method ExecuteHalt(evm: EVM, f: Frame, exec: Exec) returns (out: Outcome)
    requires exec.Halts()
    requires exec.Pops() <= |f.stack| && exec.Footprint().Fits(f.stack, |f.mem.store|) && evm.db.world.Valid()
    modifies evm`db, evm`returnData
    ensures !out.Next? && |out.ret| <= |f.mem.store|
    ensures evm.db == old(evm.db).(world := evm.db.world)
    ensures evm.db.world == old(evm.db.world)
         || (!evm.readOnly && exec.OpSelfdestruct?
             && evm.db.world == SelfDestructed(old(evm.db.world), f.address, ToAddress(Back(f.stack, 0))))
    ensures out.Fail? ==> out.err != CodeStoreOutOfGas
    ensures evm.db.world.Valid() && HaltTurn(CtxOf(evm, f), exec, old(ViewOf(evm, f)), Ahead(evm, f, out), out)
  {
    match exec {
      case OpStop => out := Stop([]);
      case OpReturn => out := Stop(f.mem.Read(Back(f.stack, 0), Back(f.stack, 1)));
      case OpRevert =>
        var ret := f.mem.Read(Back(f.stack, 0), Back(f.stack, 1));
        evm.returnData := ret;
        out := Fail(Reverted, ret);
      case OpSelfdestruct =>
        if evm.readOnly {
          return Fail(WriteProtection, []);
        }
        evm.db := evm.db.(world := SelfDestructed(evm.db.world, f.address, ToAddress(Back(f.stack, 0))));
        out := Stop([]);
      case OpUndefined => out := Fail(InvalidOpCode, []);
    }
  }

  /** Nothing is made; what an account leaves to itself is burnt. */
  lemma SelfDestructSupply(w: World, a: Address, beneficiary: Address)
    requires w.Valid()
    ensures Supply(SelfDestructed(w, a, beneficiary).vis.balances)
         == Supply(w.vis.balances) - if a == beneficiary then w.Balance(a) else 0
  {
    hide Supply;
    var n := w.Balance(a);
    if n > 0 {
      var m := w.SetBalance(beneficiary, w.Balance(beneficiary) + n);
      SupplyAfterSet(w.vis.balances, beneficiary, w.Balance(beneficiary) + n);
      SupplyAfterSet(m.vis.balances, a, 0);
    } else {
      SupplyAfterSet(w.vis.balances, a, 0);
    }
  }

  /** The whole balance goes to the beneficiary, then the account is marked. */
  function SelfDestructed(w: World, a: Address, beneficiary: Address): (x: World)
    ensures x.committed == w.committed && x.vis.storage == w.vis.storage && x.refund == w.refund
    ensures x.accAddresses == w.accAddresses && x.accSlots == w.accSlots
    ensures w.Valid() ==> x.Valid()
  {
    w.AddBalance(beneficiary, w.Balance(a)).Suicide(a)
  }
}

/** Turns by opcode byte, on the frame and the world before them: what Semantics comes to for the opcodes that touch
    stack, memory and state, once the charge has been taken. */
module Opcodes {
  import opened Uint
  import opened FrameMemory
  import opened JumpTable
  import opened Sstore
  import opened StateDb
  import opened EvmState
  import opened GasTable
  import opened Semantics
  import Bitmap

  /** The frame can pay for its next opcode, which is op, and the turn leads to a. */
  ghost predicate Takes(c: Ctx, op: Byte, v: View, a: View, out: Outcome) {
    Bitmap.OpAt(c.code, v.pc) == op && Affords(c, v) && Turn(c, v, a, out)
  }

  /** A turn of an instruction that stays in the frame is the charge, then the instruction. */
  lemma ChargedThenLocal(c: Ctx, op: Byte, v: View, a: View, out: Outcome)
    requires Takes(c, op, v, a, out)
    requires var e := Opcode(c.host.fork, op).exec; !e.OpCall? && !e.OpCreate? && !e.OpCreate2?
    ensures LocalTurn(c, op, Opcode(c.host.fork, op).exec, Charged(c, v), a, out)
    ensures Opcode(c.host.fork, op).exec.Pops() <= |v.stack|
    ensures |Charged(c, v).store| == Max(|v.store|, Room(Opcode(c.host.fork, op).exec, v.stack))
  {
    hide CallTurn, CreateTurn, LocalTurn, Opcode, Charged, Payable, Exec.Pops, Exec.Pushes, Room;
    ChargeKeeps(c, v);
    assert Does(c, op, Opcode(c.host.fork, op).exec, v.gas, Handed(c, v), Charged(c, v), a, out);
  }

  /** Gas functions change the access list and the refund counter, nothing else; memory grows with zeros. */
  lemma ChargeKeeps(c: Ctx, v: View)
    requires Affords(c, v)
    ensures var m := Charged(c, v);
      && m.stack == v.stack && m.pc == v.pc && m.returnData == v.returnData
      && m.world == v.world.(refund := m.world.refund, accAddresses := m.world.accAddresses,
                             accSlots := m.world.accSlots)
      && |m.store| == Max(|v.store|, Room(RowOf(c, v).exec, v.stack))
      && v.store <= m.store && forall i :: |v.store| <= i < |m.store| ==> m.store[i] == 0
  {
    hide Price, Payable, StoreRefund, Room, Opcode;
  }

  /** The frame goes on at the next byte, with world and return data as they were. */
  ghost predicate Steady(v: View, a: View, out: Outcome) {
    && out == Next && a.pc == WrapAdd(v.pc, 1) && a.returnData == v.returnData
    && a.world.vis == v.world.vis && a.world.exist == v.world.exist && a.world.committed == v.world.committed
  }

  /** POP, SLOAD and TLOAD. */
  lemma LoadOpcodes(c: Ctx, op: Byte, v: View, a: View, out: Outcome)
    requires Takes(c, op, v, a, out) && (op == 0x50 || op == 0x54 || (op == 0x5c && c.host.fork == Cancun))
    ensures Steady(v, a, out) && a.store == v.store && |v.stack| >= 1
    ensures var n := |v.stack|;
      a.stack == v.stack[..n - 1] + if op == 0x50 then []
                                    else if op == 0x54 then [Get(v.world.vis.storage, c.address, v.stack[n - 1])]
                                    else [Get(v.world.vis.transient, c.address, v.stack[n - 1])]
  {
    hide Turn, Affords, Charged, Opcode;
    LoadBytes(c.host.fork, op);
    ChargedThenLocal(c, op, v, a, out);
    ChargeKeeps(c, v);
  }

  lemma LoadBytes(fork: Fork, op: Byte)
    ensures op == 0x50 ==> Opcode(fork, op).exec == OpPop
    ensures op == 0x54 ==> Opcode(fork, op).exec == OpSload
    ensures op == 0x5c && fork == Cancun ==> Opcode(fork, op).exec == OpTload
  {
  }

  /** DUP1 to DUP16 and SWAP1 to SWAP16. */
  lemma ShuffleOpcodes(c: Ctx, op: Byte, v: View, a: View, out: Outcome)
    requires Takes(c, op, v, a, out) && 0x80 <= op <= 0x9f
    ensures Steady(v, a, out) && a.store == v.store
    ensures op <= 0x8f ==>
      var n, k := |v.stack|, op - 0x7f;
      n >= k && a.stack == v.stack + [v.stack[n - k]]
    ensures op >= 0x90 ==>
      var n, k := |v.stack|, op - 0x8f;
      n > k && a.stack == v.stack[n - 1 - k := v.stack[n - 1]][n - 1 := v.stack[n - 1 - k]]
  {
    hide Turn, Affords, Charged;
    ChargedThenLocal(c, op, v, a, out);
    ChargeKeeps(c, v);
    if op >= 0x90 {
      var n, k := |v.stack|, op - 0x8f;
      forall j | 0 <= j < n
        ensures a.stack[j] == v.stack[n - 1 - k := v.stack[n - 1]][n - 1 := v.stack[n - 1 - k]][j]
      {
        assert Arg(a.stack, n - 1 - j) == a.stack[j];
      }
    }
  }

  /** Memory after a byte range of it was written; before, it was grown with zeros. */
  ghost predicate Written(before: seq<Byte>, after: seq<Byte>, off: nat, data: seq<Byte>) {
    && |before| <= |after| && off + |data| <= |after|
    && forall i :: 0 <= i < |after| ==>
         after[i] == if off <= i < off + |data| then data[i - off] else ByteAt(before, i)
  }

  /** MLOAD: the word at the offset, in memory grown to hold it. */
  lemma MloadOpcode(c: Ctx, v: View, a: View, out: Outcome)
    requires Takes(c, 0x51, v, a, out)
    ensures var n := |v.stack|;
      && Steady(v, a, out) && n >= 1 && |a.stack| == n && a.stack[..n - 1] == v.stack[..n - 1]
      && Written(v.store, a.store, 0, []) && v.stack[n - 1] + 32 <= |a.store|
      && a.stack[n - 1] == FromBytes(a.store[v.stack[n - 1]..v.stack[n - 1] + 32])
  {
    hide Turn, Affords, Charged, FromBytes, ToBytes;
    ChargedThenLocal(c, 0x51, v, a, out);
    ChargeKeeps(c, v);
  }

  /** MSTORE and MSTORE8: the word's 32 bytes, or its lowest. */
  lemma MstoreOpcodes(c: Ctx, op: Byte, v: View, a: View, out: Outcome)
    requires Takes(c, op, v, a, out) && 0x52 <= op <= 0x53
    ensures var n := |v.stack|;
      && Steady(v, a, out) && n >= 2 && a.stack == v.stack[..n - 2]
      && Written(v.store, a.store, v.stack[n - 1],
                 if op == 0x52 then ToBytes(v.stack[n - 2], 32) else [v.stack[n - 2] % 256])
  {
    hide Turn, Affords, Charged, FromBytes, ToBytes;
    ChargedThenLocal(c, op, v, a, out);
    ChargeKeeps(c, v);
  }

  /** MCOPY: as through a buffer, also where the ranges overlap. */
  lemma McopyOpcode(c: Ctx, v: View, a: View, out: Outcome)
    requires Takes(c, 0x5e, v, a, out) && c.host.fork == Cancun
    ensures var n := |v.stack|;
      && Steady(v, a, out) && n >= 3 && a.stack == v.stack[..n - 3]
      && forall i :: 0 <= i < |a.store| ==>
           var at := i - v.stack[n - 1];
           a.store[i] == ByteAt(v.store, if 0 <= at < v.stack[n - 3] then v.stack[n - 2] + at else i)
  {
    hide Turn, Affords, Charged, Copied;
    ChargedThenLocal(c, 0x5e, v, a, out);
    ChargeKeeps(c, v);
    var m, n := Charged(c, v), |v.stack|;
    CopiedOver(v.store, m.store, a.store, v.stack[n - 1], v.stack[n - 3], v.stack[n - 2]);
  }

  lemma CopiedOver(before: seq<Byte>, grown: seq<Byte>, after: seq<Byte>, off: nat, len: nat, from: nat)
    requires before <= grown && (forall i :: |before| <= i < |grown| ==> grown[i] == 0)
    requires Copied(grown, after, off, len, grown, from)
    ensures forall i :: 0 <= i < |after| ==>
      var at := i - off;
      after[i] == ByteAt(before, if 0 <= at < len then from + at else i)
  {
    assert forall i: int :: ByteAt(grown, i) == ByteAt(before, i);
  }

  /** SSTORE and TSTORE: refused when read-only, otherwise one slot changes. */
  lemma StoreOpcodes(c: Ctx, op: Byte, v: View, a: View, out: Outcome)
    requires Takes(c, op, v, a, out) && (op == 0x55 || (op == 0x5d && c.host.fork == Cancun))
    ensures c.host.readOnly ==> out == Fail(WriteProtection, []) && a.world.vis == v.world.vis
    ensures !c.host.readOnly ==>
      var s, n, x, y := v.stack, |v.stack|, v.world.vis, a.world.vis;
      && out == Next && a.pc == WrapAdd(v.pc, 1) && n >= 2 && a.stack == s[..n - 2]
      && (op == 0x55 ==>
            y == x.(storage := y.storage) && Writes(x.storage, y.storage, c.address, s[n - 1], s[n - 2]))
      && (op == 0x5d ==>
            y == x.(transient := y.transient) && Writes(x.transient, y.transient, c.address, s[n - 1], s[n - 2]))
  {
    hide Turn, Affords, Charged, Writes, Opcode;
    StateBytes(c.host.fork, op);
    ChargedThenLocal(c, op, v, a, out);
    ChargeKeeps(c, v);
  }

  lemma StateBytes(fork: Fork, op: Byte)
    ensures op == 0x55 ==> Opcode(fork, op).exec == OpSstore
    ensures op == 0x5d && fork == Cancun ==> Opcode(fork, op).exec == OpTstore
    ensures 0xa0 <= op <= 0xa4 ==> Opcode(fork, op).exec == OpLog(op - 0xa0)
  {
  }

  /** The log of the frame's own address with these topics, the first on top of the stack, and this memory range. */
  ghost predicate Logs(log: Log, c: Ctx, v: View, topics: nat) {
    && |v.stack| >= 2 + topics && log.address == c.address && |log.topics| == topics
    && (forall i :: 0 <= i < topics ==> log.topics[i] == v.stack[|v.stack| - 3 - i])
    && Reads(log.data, v)
  }

  /** data is the memory range named by the two words on top, zero where memory was not there yet. */
  ghost predicate Reads(data: seq<Byte>, v: View) {
    && |v.stack| >= 2 && |data| == v.stack[|v.stack| - 2]
    && forall i :: 0 <= i < |data| ==> data[i] == ByteAt(v.store, v.stack[|v.stack| - 1] + i)
  }

  lemma SliceReads(v: View, grown: seq<Byte>)
    requires |v.stack| >= 2 && Extent(Arg(v.stack, 0), Arg(v.stack, 1)) <= |grown|
    requires v.store <= grown && forall i :: |v.store| <= i < |grown| ==> grown[i] == 0
    ensures Reads(Slice(grown, Arg(v.stack, 0), Arg(v.stack, 1)), v)
  {
  }

  /** LOG0 to LOG4: refused when read-only, otherwise one log is added. */
  lemma LogOpcodes(c: Ctx, op: Byte, v: View, a: View, out: Outcome)
    requires Takes(c, op, v, a, out) && 0xa0 <= op <= 0xa4
    ensures c.host.readOnly ==> out == Fail(WriteProtection, []) && a.world.vis == v.world.vis
    ensures !c.host.readOnly ==>
      var n, topics, x, y := |v.stack|, op - 0xa0, v.world.vis, a.world.vis;
      && out == Next && a.pc == WrapAdd(v.pc, 1) && n >= 2 + topics && a.stack == v.stack[..n - 2 - topics]
      && |y.logs| == |x.logs| + 1 && y == x.(logs := x.logs + [y.logs[|x.logs|]])
      && Logs(y.logs[|x.logs|], c, v, topics)
  {
    hide Turn, Affords, Charged, Opcode, Reads, Slice;
    StateBytes(c.host.fork, op);
    ChargedThenLocal(c, op, v, a, out);
    ChargeKeeps(c, v);
    SliceReads(v, Charged(c, v).store);
  }

  /** STOP, RETURN, REVERT and SELFDESTRUCT. */
  lemma HaltOpcodes(c: Ctx, op: Byte, v: View, a: View, out: Outcome)
    requires Takes(c, op, v, a, out)
    requires op == 0x00 || op == 0xf3 || (op == 0xfd && c.host.fork.AtLeast(Byzantium)) || op == 0xff
    ensures op != 0xff ==> a.world.vis == v.world.vis
    ensures op == 0x00 ==> out == Stop([])
    ensures op == 0xf3 ==> out.Stop? && Reads(out.ret, v)
    ensures op == 0xfd ==> out.Fail? && out.err == Reverted && Reads(out.ret, v)
    ensures op == 0xff && c.host.readOnly ==> out == Fail(WriteProtection, []) && a.world.vis == v.world.vis
    ensures op == 0xff && !c.host.readOnly ==>
      var self, n := c.address, |v.stack|;
      && out == Stop([]) && n >= 1
      && var heir := ToAddress(v.stack[n - 1]);
         forall b: Address ::
           a.world.Balance(b) == if b == self then 0
                                 else v.world.Balance(b) + if b == heir then v.world.Balance(self) else 0
  {
    hide Turn, Affords, Charged, Opcode, Reads, Slice;
    HaltBytes(c.host.fork, op);
    ChargedThenLocal(c, op, v, a, out);
    ChargeKeeps(c, v);
    if op == 0xf3 || op == 0xfd {
      SliceReads(v, Charged(c, v).store);
    }
  }

  lemma HaltBytes(fork: Fork, op: Byte)
    ensures op == 0x00 ==> Opcode(fork, op).exec == OpStop
    ensures op == 0xf3 ==> Opcode(fork, op).exec == OpReturn
    ensures op == 0xfd && fork.AtLeast(Byzantium) ==> Opcode(fork, op).exec == OpRevert
    ensures op == 0xff ==> Opcode(fork, op).exec == OpSelfdestruct
  {
  }
}

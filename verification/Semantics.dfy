/** What a run means.  One turn of the interpreter, one frame, one call and one creation are described here on values,
    opcode byte by opcode byte, without the objects, tables, caches, snapshots and temporaries the source works with.
    Interpreter proves that every run of the source's form comes to this. */
module Semantics {
  import opened Uint
  import opened FrameMemory
  import opened JumpTable
  import opened Sstore
  import opened StateDb
  import opened EvmState
  import opened GasTable
  import Bitmap
  import Jumpdest

  /** What all frames at one depth share. */
  datatype Host = Host(fork: Fork, env: Env, joinPoints: bool, depth: nat, readOnly: bool)

  /** What stays fixed while a frame runs. */
  datatype Ctx = Ctx(host: Host, caller: Address, address: Address, value: nat, code: Bytes, input: Bytes)

  /** What changes. */
  datatype View = View(stack: seq<Word>, store: seq<Byte>, pc: U64, gas: U64, world: World, returnData: seq<Byte>)

  /** How a frame, a call or a creation ends. */
  datatype Answer = Answer(ret: seq<Byte>, err: Option<Err>, gas: U64, world: World)

  // ---- operands

  /** The i-th word from the top. */
  ghost function Arg(s: seq<Word>, i: nat): (w: Word) {
    if i < |s| then s[|s| - 1 - i] else 0
  }

  ghost function Args(s: seq<Word>, n: nat): (args: seq<Word>)
    ensures |args| == n
  {
    seq(n, i requires 0 <= i < n => Arg(s, i))
  }

  /** What is under the n words on top. */
  ghost function Under(s: seq<Word>, n: nat): (r: seq<Word>) {
    if n <= |s| then s[..|s| - n] else []
  }

  /** Bytes of memory up to the end of a range. */
  ghost function Extent(off: nat, len: nat): (n: nat) {
    if len == 0 then 0 else off + len
  }

  /** How much memory an instruction needs. */
  ghost function Need(e: Exec, s: seq<Word>): (n: nat) {
    match e
    case OpMload => Arg(s, 0) + 32
    case OpMstore => Arg(s, 0) + 32
    case OpMstore8 => Arg(s, 0) + 1
    case OpMcopy => Max(Extent(Arg(s, 0), Arg(s, 2)), Extent(Arg(s, 1), Arg(s, 2)))
    case OpKeccak => Extent(Arg(s, 0), Arg(s, 1))
    case OpReturn => Extent(Arg(s, 0), Arg(s, 1))
    case OpRevert => Extent(Arg(s, 0), Arg(s, 1))
    case OpLog(_) => Extent(Arg(s, 0), Arg(s, 1))
    case OpCallDataCopy => Extent(Arg(s, 0), Arg(s, 2))
    case OpCodeCopy => Extent(Arg(s, 0), Arg(s, 2))
    case OpReturnDataCopy => Extent(Arg(s, 0), Arg(s, 2))
    case OpExtCodeCopy => Extent(Arg(s, 1), Arg(s, 3))
    case OpCreate => Extent(Arg(s, 1), Arg(s, 2))
    case OpCreate2 => Extent(Arg(s, 1), Arg(s, 2))
    case OpCall(kind) =>
      if kind.Call? || kind.CallCode? then Max(Extent(Arg(s, 3), Arg(s, 4)), Extent(Arg(s, 5), Arg(s, 6)))
      else Max(Extent(Arg(s, 2), Arg(s, 3)), Extent(Arg(s, 4), Arg(s, 5)))
    case _ => 0
  }

  /** The memory it is billed for: whole words. */
  ghost function Room(e: Exec, s: seq<Word>): (n: nat) {
    32 * Words(Need(e, s))
  }

  // ---- charging

  ghost function RowOf(c: Ctx, v: View): (r: Row) {
    Opcode(c.host.fork, Bitmap.OpAt(c.code, v.pc))
  }

  /** The stack is high enough and has room, and gas, memory and operands allow the charge. */
  ghost predicate Affords(c: Ctx, v: View) {
    var r, s := RowOf(c, v), v.stack;
    && r.exec.Pops() <= |s| && |s| + r.exec.Pushes() <= 1024 + r.exec.Pops()
    && r.gas <= v.gas && r.dynamic.Depth() <= |s| && Room(r.exec, s) < TWO_64
    && Payable(c.host.fork, v.world, c.address, s, |v.store|, Room(r.exec, s), r.dynamic, v.gas - r.gas)
  }

  /** What is wrong when it does not, in the order of the checks. */
  ghost function Refusal(c: Ctx, v: View): (e: Err) {
    var r, s := RowOf(c, v), v.stack;
    if |s| < r.exec.Pops() then StackUnderflow
    else if |s| + r.exec.Pushes() > 1024 + r.exec.Pops() then StackOverflow
    else if v.gas >= r.gas && Room(r.exec, s) >= TWO_64 then GasUintOverflow
    else OutOfGas
  }

  ghost function Minus(a: U64, b: nat): (r: U64) {
    if b <= a then a - b else 0
  }

  /** The gas a call hands down. */
  ghost function Handed(c: Ctx, v: View): (n: nat)
    requires Affords(c, v)
  {
    var r, s := RowOf(c, v), v.stack;
    var base := Price(c.host.fork, v.world, c.address, s, |v.store|, Room(r.exec, s), r.dynamic, 0);
    if r.exec.OpCall? then HandedDown(c.host.fork, v.gas - r.gas, base, Arg(s, 0)) else 0
  }

  /** The frame once the charge is taken: less gas, more memory, a warmer world. */
  ghost function Charged(c: Ctx, v: View): (m: View)
    requires Affords(c, v)
  {
    var r, s := RowOf(c, v), v.stack;
    var size := Room(r.exec, s);
    v.(gas := Minus(v.gas, r.gas + Price(c.host.fork, v.world, c.address, s, |v.store|, size, r.dynamic, Handed(c, v))),
       store := v.store + Zeros(Max(|v.store|, size) - |v.store|),
       world := Warmed(c.host.fork, v.world, c.address, s, r.dynamic))
  }

  // ---- words and bytes an instruction handles

  /** PUSH0 to PUSH32: the argument bytes, zero-padded on the right past the end of the code. */
  function PushValue(code: Bytes, pc: U64, size: nat): (w: Word)
    requires size <= 32
  {
    FromBytesFits(PushArgument(code, pc, size));
    PowMonotone(size, 32);
    WordRange();
    FromBytes(PushArgument(code, pc, size))
  }

  function PushArgument(code: Bytes, pc: U64, size: nat): (b: seq<Byte>)
    ensures |b| == size
  {
    seq<Byte>(size, i requires 0 <= i < size => Bitmap.OpAt(code, pc + 1 + i))
  }

  /** It has as many bytes as the argument, and they are the ones after the opcode; past the end they are zero. */
  lemma PushValueIs(code: Bytes, pc: U64, size: nat)
    requires size <= 32
    ensures PushValue(code, pc, size) < Pow256(size)
    ensures forall i :: 0 <= i < size ==>
      ToBytes(PushValue(code, pc, size), size)[i] == if pc + 1 + i < |code| then code[pc + 1 + i] else 0
  {
    FromBytesFits(PushArgument(code, pc, size));
    BytesBack(PushArgument(code, pc, size));
    assert forall i :: 0 <= i < size ==> PushArgument(code, pc, size)[i] == Bitmap.OpAt(code, pc + 1 + i);
  }

  /** data from position from on went to the len bytes at off, zero-padded; the rest is as before. */
  ghost predicate Copied(before: seq<Byte>, after: seq<Byte>, off: nat, len: nat, data: seq<Byte>, from: nat) {
    && |after| == |before|
    && forall i :: 0 <= i < |before| ==>
         after[i] == if off <= i < off + len then ByteAt(data, from + i - off) else before[i]
  }

  function ByteAt(data: seq<Byte>, i: int): (b: Byte) {
    if 0 <= i < |data| then data[i] else 0
  }

  // ---- instructions that stay in the frame: from m, after the charge, to a

  /** Execution goes on at the next byte; only the stack changed. */
  ghost predicate Goes(m: View, a: View, out: Outcome) {
    out == Next && a == m.(stack := a.stack, pc := WrapAdd(m.pc, 1))
  }

  /** The frame ends; the world is as it was. */
  ghost predicate Ends(m: View, a: View) {
    a.world == m.world && a.gas == m.gas
  }

  ghost function Seen(c: Ctx, m: View): (x: Context) {
    Context(m.world, c.address, c.caller, c.value, c.input, c.code, m.pc, m.gas, m.store, m.returnData)
  }

  ghost predicate StackTurn(c: Ctx, op: Byte, e: Exec, m: View, a: View, out: Outcome) {
    match e
    case OpPure(n) =>
      Goes(m, a, out) && a.stack == Under(m.stack, n) + [c.host.env.evaluate(op, Args(m.stack, n), Seen(c, m))]
    case OpPop => Goes(m, a, out) && a.stack == Under(m.stack, 1)
    case OpDup(n) => Goes(m, a, out) && n > 0 && a.stack == m.stack + [Arg(m.stack, n - 1)]
    case OpSwap(n) =>
      && Goes(m, a, out) && |a.stack| == |m.stack|
      && forall i: nat :: i < |m.stack| ==>
           Arg(a.stack, i) == Arg(m.stack, if i == 0 then n else if i == n then 0 else i)
    case OpJournal(n) =>
      if c.host.env.journalFails(op, Args(m.stack, n), Seen(c, m)) then out == Fail(JournalFailed, []) && Ends(m, a)
      else Goes(m, a, out) && a.stack == Under(m.stack, n)
    case OpSload =>
      Goes(m, a, out) && a.stack == Under(m.stack, 1) + [Get(m.world.vis.storage, c.address, Arg(m.stack, 0))]
    case OpTload =>
      Goes(m, a, out) && a.stack == Under(m.stack, 1) + [Get(m.world.vis.transient, c.address, Arg(m.stack, 0))]
    case _ => false
  }

  ghost predicate FlowTurn(c: Ctx, e: Exec, m: View, a: View, out: Outcome) {
    match e
    case OpPush(size) =>
      && size <= 32 && out == Next && a == m.(stack := m.stack + [PushValue(c.code, m.pc, size)], pc := a.pc)
      && a.pc == m.pc + 1 + size
    case OpJump => JumpsTo(c, m, a, out, 1)
    case OpJumpi =>
      if Arg(m.stack, 1) == 0 then Goes(m, a, out) && a.stack == Under(m.stack, 2) else JumpsTo(c, m, a, out, 2)
    case OpJumpdest => Goes(m, a, out) && a.stack == m.stack
    case _ => false
  }

  ghost predicate JumpsTo(c: Ctx, m: View, a: View, out: Outcome, pops: nat) {
    if Jumpdest.IsJumpdest(c.code, Arg(m.stack, 0)) then
      out == Next && a == m.(stack := Under(m.stack, pops), pc := a.pc) && a.pc == Arg(m.stack, 0)
    else out == Fail(InvalidJump, []) && Ends(m, a)
  }

  /** Execution goes on; stack and memory changed, the stack by dropping n words. */
  ghost predicate Wrote(m: View, a: View, out: Outcome, n: nat) {
    out == Next && a == m.(stack := Under(m.stack, n), store := a.store, pc := WrapAdd(m.pc, 1))
  }

  ghost predicate MemoryTurn(c: Ctx, e: Exec, m: View, a: View, out: Outcome) {
    var s := m.stack;
    match e
    case OpKeccak =>
      Goes(m, a, out) && a.stack == Under(s, 2) + [c.host.env.keccak(Slice(m.store, Arg(s, 0), Arg(s, 1)))]
    case OpMload =>
      && Goes(m, a, out) && |a.stack| == |s| && Under(a.stack, 1) == Under(s, 1)
      && Arg(a.stack, 0) == FromBytes(Slice(m.store, Arg(s, 0), 32))
    case OpMstore =>
      Wrote(m, a, out, 2) && Copied(m.store, a.store, Arg(s, 0), 32, ToBytes(Arg(s, 1), 32), 0)
    case OpMstore8 => Wrote(m, a, out, 2) && Copied(m.store, a.store, Arg(s, 0), 1, [Arg(s, 1) % 256], 0)
    case OpMcopy => Wrote(m, a, out, 3) && Copied(m.store, a.store, Arg(s, 0), Arg(s, 2), m.store, Arg(s, 1))
    case OpCallDataCopy => Wrote(m, a, out, 3) && Copied(m.store, a.store, Arg(s, 0), Arg(s, 2), c.input, Arg(s, 1))
    case OpCodeCopy => Wrote(m, a, out, 3) && Copied(m.store, a.store, Arg(s, 0), Arg(s, 2), c.code, Arg(s, 1))
    case OpExtCodeCopy =>
      && Wrote(m, a, out, 4)
      && Copied(m.store, a.store, Arg(s, 1), Arg(s, 3), m.world.Code(ToAddress(Arg(s, 0))), Arg(s, 2))
    case OpReturnDataCopy =>
      if Arg(s, 1) + Arg(s, 2) <= |m.returnData| && Arg(s, 1) + Arg(s, 2) < TWO_64 then
        Wrote(m, a, out, 3) && Copied(m.store, a.store, Arg(s, 0), Arg(s, 2), m.returnData, Arg(s, 1))
      else out == Fail(ReturnDataOutOfBounds, []) && Ends(m, a)
    case _ => false
  }

  /** One slot of s got value v, and every other slot kept its value. */
  ghost predicate Writes(s: Storage, t: Storage, a: Address, k: Word, v: Word) {
    forall b: Address, l: Word :: Get(t, b, l) == if (b, l) == (a, k) then v else Get(s, b, l)
  }

  ghost predicate StateTurn(c: Ctx, e: Exec, m: View, a: View, out: Outcome) {
    if c.host.readOnly then out == Fail(WriteProtection, []) && Ends(m, a)
    else
      var s, w, x := m.stack, m.world, a.world;
      && out == Next && a == m.(stack := a.stack, pc := WrapAdd(m.pc, 1), world := x)
      && match e
         case OpSstore =>
           && a.stack == Under(s, 2) && Writes(w.vis.storage, x.vis.storage, c.address, Arg(s, 0), Arg(s, 1))
           && x == w.(exist := w.exist + {c.address}, vis := w.vis.(storage := x.vis.storage))
         case OpTstore =>
           && a.stack == Under(s, 2) && Writes(w.vis.transient, x.vis.transient, c.address, Arg(s, 0), Arg(s, 1))
           && x == w.(vis := w.vis.(transient := x.vis.transient))
         case OpLog(n) =>
           && a.stack == Under(s, 2 + n)
           && x == w.(vis := w.vis.(logs :=
                w.vis.logs + [Log(c.address, Args(s, 2 + n)[2..], Slice(m.store, Arg(s, 0), Arg(s, 1)))]))
         case _ => false
  }

  /** The account's whole balance goes to the heir, what it leaves to itself is gone, and it is marked. */
  ghost predicate Dies(w: World, x: World, self: Address, heir: Address) {
    && (forall a: Address ::
          x.Balance(a) == if a == self then 0 else if a == heir then w.Balance(a) + w.Balance(self) else w.Balance(a))
    && x.vis.suicided == w.vis.suicided + (if self in w.exist || self == heir then {self} else {})
    && x == w.(exist := w.exist + {heir}, vis := w.vis.(balances := x.vis.balances, suicided := x.vis.suicided))
  }

  ghost predicate HaltTurn(c: Ctx, e: Exec, m: View, a: View, out: Outcome) {
    var data := Slice(m.store, Arg(m.stack, 0), Arg(m.stack, 1));
    match e
    case OpStop => out == Stop([]) && Ends(m, a)
    case OpReturn => out == Stop(data) && Ends(m, a)
    case OpRevert => out == Fail(Reverted, data) && Ends(m, a)
    case OpSelfdestruct =>
      if c.host.readOnly then out == Fail(WriteProtection, []) && Ends(m, a)
      else out == Stop([]) && a.gas == m.gas && Dies(m.world, a.world, c.address, ToAddress(Arg(m.stack, 0)))
    case OpUndefined => out == Fail(InvalidOpCode, []) && Ends(m, a)
    case _ => false
  }

  ghost predicate LocalTurn(c: Ctx, op: Byte, e: Exec, m: View, a: View, out: Outcome) {
    if e.Halts() then HaltTurn(c, e, m, a, out)
    else if e.OpSstore? || e.OpTstore? || e.OpLog? then StateTurn(c, e, m, a, out)
    else if e.Footprint() != NoMemory then MemoryTurn(c, e, m, a, out)
    else if e.OpPush? || e.OpJump? || e.OpJumpi? || e.OpJumpdest? then FlowTurn(c, e, m, a, out)
    else StackTurn(c, op, e, m, a, out)
  }

  // ---- accounts entered and made

  /** The state Call hands to the callee: the account exists and the value has moved. */
  function Entered(w: World, caller: Address, addr: Address, value: nat): (x: World)
    requires value == 0 || value <= w.Balance(caller)
    ensures w.Valid() ==> x.Valid() && x.committed == w.committed && x.vis.storage == w.vis.storage
    ensures x.refund == w.refund && x.accAddresses == w.accAddresses
    ensures w.Valid() && value == 0 ==> x.vis == w.vis
    ensures w.Valid() ==> x.vis.codes == w.vis.codes
    ensures Supply(x.vis.balances) == Supply(w.vis.balances)
  {
    TransferKeepsSupply(if w.Exist(addr) then w else w.CreateAccount(addr), caller, addr, value);
    (if w.Exist(addr) then w else w.CreateAccount(addr)).Transfer(caller, addr, value)
  }

  /** Ether moved between two accounts and nowhere else. */
  ghost predicate Moves(w: World, x: World, from: Address, to: Address, n: nat) {
    forall a: Address ::
      x.Balance(a) == w.Balance(a) - (if a == from then n else 0) + (if a == to then n else 0)
  }

  /** Exactly the value moves, and both accounts exist afterwards. */
  lemma EnteredMoves(w: World, caller: Address, addr: Address, value: nat)
    requires w.Valid() && (value == 0 || value <= w.Balance(caller))
    ensures var x := Entered(w, caller, addr, value);
      && Moves(w, x, caller, addr, value)
      && x == w.(exist := w.exist + {caller, addr}, vis := w.vis.(balances := x.vis.balances))
  {
    var x := Entered(w, caller, addr, value);
    assert x.exist == w.exist + {caller, addr};
  }

  /** What a create leaves behind even when it fails: the caller's nonce, and the warm address. */
  function Announced(fork: Fork, w: World, caller: Address, address: Address): (x: World)
    requires w.Nonce(caller) < MAX_U64
    ensures w.Valid() ==> x.Valid()
    ensures forall a: Address :: x.Nonce(a) == w.Nonce(a) + if a == caller then 1 else 0
    ensures x == w.(exist := w.exist + {caller}, vis := w.vis.(nonces := x.vis.nonces),
                    accAddresses := w.accAddresses + if fork.AtLeast(Berlin) then {address} else {})
  {
    var x := w.SetNonce(caller, w.Nonce(caller) + 1);
    assert w.accAddresses + {} == w.accAddresses;
    if fork.AtLeast(Berlin) then x.AddAddress(address) else x
  }

  /** The account the init code runs in. */
  function Created(fork: Fork, w: World, caller: Address, address: Address, value: nat): (x: World)
    requires value <= w.Balance(caller)
    ensures w.Valid() ==> x.Valid()
    ensures x.refund == w.refund && x.accAddresses == w.accAddresses
    ensures x.committed == w.committed - {address} && x.vis.storage == w.vis.storage - {address}
    ensures Supply(x.vis.balances) == Supply(w.vis.balances)
  {
    var c := w.CreateAccount(address);
    TransferKeepsSupply(if fork.AtLeast(SpuriousDragon) then c.SetNonce(address, 1) else c, caller, address, value);
    (if fork.AtLeast(SpuriousDragon) then c.SetNonce(address, 1) else c).Transfer(caller, address, value)
  }

  /** What the init code finds: no code, no storage, nonce 1 since EIP-158, and the endowment; nothing else moved. */
  lemma CreatedIs(fork: Fork, w: World, caller: Address, address: Address, value: nat)
    requires value <= w.Balance(caller)
    ensures var x := Created(fork, w, caller, address, value);
      && x.Nonce(address) == (if fork.AtLeast(SpuriousDragon) then 1 else 0) && x.Code(address) == []
      && (forall k: Word :: Get(x.vis.storage, address, k) == 0 && Get(x.committed, address, k) == 0)
      && Moves(w, x, caller, address, value) && address !in x.vis.suicided
    ensures var x := Created(fork, w, caller, address, value);
      && (forall a: Address :: a != address ==> x.Nonce(a) == w.Nonce(a) && x.Code(a) == w.Code(a))
      && (forall a: Address, k: Word :: a != address ==> Get(x.vis.storage, a, k) == Get(w.vis.storage, a, k))
      && x.vis.suicided == w.vis.suicided - {address}
      && x.vis.logs == w.vis.logs && x.vis.transient == w.vis.transient && x.exist == w.exist + {caller, address}
  {
    var x := Created(fork, w, caller, address, value);
    assert x.exist == w.exist + {caller, address};
  }

  // ---- turns, frames, calls and creations, defined together; gas is the measure

  /** One turn of the loop, from v to a. */
  ghost predicate Turn(c: Ctx, v: View, a: View, out: Outcome)
    decreases v.gas, 2
  {
    if !Affords(c, v) then
      && out == Fail(Refusal(c, v), []) && a.gas <= v.gas
      && a.world == v.world.(refund := a.world.refund, accAddresses := a.world.accAddresses,
                             accSlots := a.world.accSlots)
    else
      Does(c, Bitmap.OpAt(c.code, v.pc), RowOf(c, v).exec, v.gas, Handed(c, v), Charged(c, v), a, out)
  }

  /** The instruction itself, from m, after the charge, to a. */
  ghost predicate Does(c: Ctx, op: Byte, e: Exec, head: U64, handed: nat, m: View, a: View, out: Outcome)
    decreases head, 1
  {
    if e.OpCall? then CallTurn(c, e.kind, head, handed, m, a, out)
    else if e.OpCreate? || e.OpCreate2? then CreateTurn(c, e, head, m, a, out)
    else LocalTurn(c, op, e, m, a, out)
  }

  /** Run from v on, the frame ends with r. */
  ghost predicate From(c: Ctx, v: View, r: Answer)
    decreases v.gas, 3
  {
    exists a: View, out: Outcome :: Turn(c, v, a, out) && Reaches(c, v, a, out, r)
  }

  ghost predicate Reaches(c: Ctx, v: View, a: View, out: Outcome, r: Answer)
    decreases v.gas, 2
  {
    match out
    case Next => a.gas < v.gas && From(c, a, r)
    case Stop(ret) => r == Answer(ret, None, a.gas, a.world)
    case Fail(err, ret) => r == Answer(ret, Some(err), a.gas, a.world)
  }

  /** A frame started in world w with the given gas ends with r. */
  ghost predicate Yields(c: Ctx, gas: U64, w: World, r: Answer)
    decreases gas, 4
  {
    if c.code == [] then r == Answer([], None, gas, w) else From(c, View([], [], 0, gas, w, []), r)
  }

  /** Failure: back to world w, and gas only after a revert. */
  ghost function Settled(w: World, r: Answer): (s: Answer) {
    if r.err == None then r else Answer(r.ret, r.err, if r.err == Some(Reverted) then r.gas else 0, w)
  }

  ghost function Precompiled(env: Env, addr: Address, input: Bytes, gas: U64, w: World): (r: Answer) {
    if gas < env.precompileGas(addr, input) then Answer([], Some(OutOfGas), 0, w)
    else Answer(env.precompileRun(addr, input).0, env.precompileRun(addr, input).1,
                gas - env.precompileGas(addr, input), w)
  }

  /** What the pre-call join point says; without join points it lets everything through. */
  ghost function PreHook(h: Host, call: HookCall): (r: HookResult) {
    if h.joinPoints then h.env.preCall(call) else HookResult([], call.gas, None)
  }

  /** What the post-call join point makes of the callee's answer: its gas counts, its error replaces the callee's, and
      its data too unless it ran out of gas. */
  ghost function PostHook(h: Host, call: HookCall, r: Answer): (s: Answer) {
    if !h.joinPoints then r
    else
      var post := h.env.postCall(call.(gas := r.gas), r.ret, r.err);
      Answer(if post.err == None || post.err == Some(OutOfGas) then r.ret else post.ret,
             if post.err == None then r.err else post.err, post.gas, r.world)
  }

  /** The host of the frame below. */
  ghost function Deeper(h: Host, frozen: bool): (d: Host) {
    h.(depth := h.depth + 1, readOnly := h.readOnly || frozen)
  }

  /** EVM.Call, started in world w, ends with r. */
  ghost predicate Calls(h: Host, caller: Address, addr: Address, input: Bytes, gas: U64, value: nat, w: World,
                        r: Answer)
    decreases gas, 5
  {
    if h.depth > 1024 then r == Answer([], Some(DepthExceeded), gas, w)
    else if value != 0 && w.Balance(caller) < value then r == Answer([], Some(InsufficientBalance), gas, w)
    else if addr !in w.exist && !IsPrecompile(h.fork, addr) && h.fork.AtLeast(SpuriousDragon) && value == 0 then
      r == Answer([], None, gas, w)
    else
      var x := Entered(w, caller, addr, value);
      if IsPrecompile(h.fork, addr) then r == Settled(w, Precompiled(h.env, addr, input, gas, x))
      else if x.Code(addr) == [] then r == Answer([], None, gas, x)
      else
        var call := HookCall(caller, addr, input, gas, value);
        var pre := PreHook(h, call);
        if pre.err.Some? then r == Answer(pre.ret, pre.err, pre.gas, x)
        else
          exists ran: Answer ::
            && Yields(Ctx(Deeper(h, false), caller, addr, value, x.Code(addr), input), pre.gas, x, ran)
            && r == Settled(w, PostHook(h, call, ran))
  }

  /** The code of addr runs as self in world x; failure goes back to w. */
  ghost predicate Borrows(h: Host, caller: Address, self: Address, addr: Address, input: Bytes, gas: U64, value: nat,
                          frozen: bool, w: World, x: World, r: Answer)
    decreases gas, 5
  {
    if IsPrecompile(h.fork, addr) then r == Settled(w, Precompiled(h.env, addr, input, gas, x))
    else
      exists ran: Answer ::
        Yields(Ctx(Deeper(h, frozen), caller, self, value, x.Code(addr), input), gas, x, ran) && r == Settled(w, ran)
  }

  /** EVM.CallCode: the caller runs foreign code as itself. */
  ghost predicate CallCodes(h: Host, caller: Address, addr: Address, input: Bytes, gas: U64, value: nat, w: World,
                            r: Answer)
    decreases gas, 6
  {
    if h.depth > 1024 then r == Answer([], Some(DepthExceeded), gas, w)
    else if w.Balance(caller) < value then r == Answer([], Some(InsufficientBalance), gas, w)
    else Borrows(h, caller, caller, addr, input, gas, value, false, w, w, r)
  }

  /** EVM.DelegateCall: self runs foreign code with its own caller and value. */
  ghost predicate DelegateCalls(h: Host, self: Address, caller: Address, value: nat, addr: Address, input: Bytes,
                                gas: U64, w: World, r: Answer)
    decreases gas, 6
  {
    if h.depth > 1024 then r == Answer([], Some(DepthExceeded), gas, w)
    else Borrows(h, caller, self, addr, input, gas, value, false, w, w, r)
  }

  /** EVM.StaticCall: no value, read-only; the callee is touched. */
  ghost predicate StaticCalls(h: Host, caller: Address, addr: Address, input: Bytes, gas: U64, w: World, r: Answer)
    decreases gas, 6
  {
    if h.depth > 1024 then r == Answer([], Some(DepthExceeded), gas, w)
    else Borrows(h, caller, addr, addr, input, gas, 0, true, w, w.(exist := w.exist + {addr}), r)
  }

  /** The call a call instruction makes. */
  ghost predicate Enters(c: Ctx, kind: CallKind, to: Address, args: Bytes, gas: U64, value: nat, w: World, r: Answer)
    decreases gas, 7
  {
    match kind
    case Call => Calls(c.host, c.address, to, args, gas, value, w, r)
    case CallCode => CallCodes(c.host, c.address, to, args, gas, value, w, r)
    case DelegateCall => DelegateCalls(c.host, c.address, c.caller, c.value, to, args, gas, w, r)
    case StaticCall => StaticCalls(c.host, c.address, to, args, gas, w, r)
  }

  /** A call instruction: operands k to k + 3 are the argument and the return range, under them lie two words or, for
      the kinds that move value, three. */
  ghost predicate CallTurn(c: Ctx, kind: CallKind, head: U64, handed: nat, m: View, a: View, out: Outcome)
    decreases head, 0
  {
    var s, k := m.stack, if kind.Call? || kind.CallCode? then 3 else 2;
    var value := if kind.Call? || kind.CallCode? then Arg(s, 2) else 0;
    var gas := handed + if value != 0 then 2_300 else 0;
    var args := Slice(m.store, Arg(s, k), Arg(s, k + 1));
    if kind.Call? && c.host.readOnly && value != 0 then out == Fail(WriteProtection, []) && Ends(m, a)
    else
      && out == Next && gas < head && |args| < 0x8000_0000_0000_0000
      && exists r: Answer ::
           && Enters(c, kind, ToAddress(Arg(s, 1)), args, gas, value, m.world, r)
           && Resumes(m, a, k, Arg(s, k + 2), Arg(s, k + 3), r)
  }

  /** What the frame gets of a call: a flag for the operands, the gas left over, the world, and the return data, in its
      buffer and, unless the call failed without data, in the range it named. */
  ghost predicate Resumes(m: View, a: View, k: nat, off: nat, len: nat, r: Answer) {
    && a.stack == Under(m.stack, k + 4) + [if r.err == None then 1 else 0]
    && |a.store| == |m.store|
    && (forall i :: 0 <= i < |m.store| ==>
          a.store[i] == if (r.err == None || r.err == Some(Reverted)) && 0 <= i - off < len && i - off < |r.ret|
                        then r.ret[i - off] else m.store[i])
    && a.pc == WrapAdd(m.pc, 1) && a.gas == m.gas + r.gas && a.world == r.world && a.returnData == r.ret
  }

  /** The deposit of what the init code returned; before Homestead running out of gas for it undoes nothing. */
  ghost function Deposited(fork: Fork, address: Address, w: World, r: Answer): (s: Answer) {
    if r.err.Some? then Settled(w, r)
    else if fork.AtLeast(SpuriousDragon) && |r.ret| > 24_576 then Answer(r.ret, Some(MaxCodeSizeExceeded), 0, w)
    else if fork.AtLeast(London) && |r.ret| > 0 && r.ret[0] == 0xEF then Answer(r.ret, Some(InvalidCode), 0, w)
    else if r.gas >= 200 * |r.ret| then
      if |r.ret| < 0x8000_0000_0000_0000
      then Answer(r.ret, None, r.gas - 200 * |r.ret|,
                  r.world.(exist := r.world.exist + {address},
                           vis := r.world.vis.(codes := r.world.vis.codes[address := r.ret])))
      else r
    else if fork.AtLeast(Homestead) then Answer(r.ret, Some(CodeStoreOutOfGas), 0, w)
    else r.(err := Some(CodeStoreOutOfGas))
  }

  /** EVM.create, started in world w, ends with r. */
  ghost predicate Creates(h: Host, caller: Address, code: Bytes, gas: U64, value: nat, address: Address, w: World,
                          r: Answer)
    decreases gas, 5
  {
    if h.depth > 1024 then r == Answer([], Some(DepthExceeded), gas, w)
    else if w.Balance(caller) < value then r == Answer([], Some(InsufficientBalance), gas, w)
    else if w.Nonce(caller) == MAX_U64 then r == Answer([], Some(NonceUintOverflow), gas, w)
    else
      var x := Announced(h.fork, w, caller, address);
      if x.Nonce(address) != 0 || x.Code(address) != [] then r == Answer([], Some(AddressCollision), 0, x)
      else
        exists ran: Answer ::
          && Yields(Ctx(Deeper(h, false), caller, address, value, code, []), gas,
                    Created(h.fork, x, caller, address, value), ran)
          && r == Deposited(h.fork, address, x, ran)
  }

  /** A create instruction: endowment, offset, length and for CREATE2 a salt; the frame gets the address or zero, and
      the data of a revert. */
  ghost predicate CreateTurn(c: Ctx, e: Exec, head: U64, m: View, a: View, out: Outcome)
    decreases head, 0
  {
    var s := m.stack;
    var code := Slice(m.store, Arg(s, 1), Arg(s, 2));
    var kept := if e.OpCreate2? || c.host.fork.AtLeast(TangerineWhistle) then m.gas / 64 else 0;
    if c.host.readOnly then out == Fail(WriteProtection, []) && Ends(m, a)
    else
      && out == Next && m.gas < head && |code| < 0x8000_0000_0000_0000
      && var address := if e.OpCreate2? then c.host.env.create2Address(c.address, Arg(s, 3), code)
                        else c.host.env.createAddress(c.address, m.world.Nonce(c.address));
         exists r: Answer ::
           && Creates(c.host, c.address, code, m.gas - kept, Arg(s, 0), address, m.world, r)
           && a == View(Under(s, if e.OpCreate2? then 4 else 3) + [if Succeeds(c, e, r) then address else 0],
                        m.store, WrapAdd(m.pc, 1), a.gas, r.world, if r.err == Some(Reverted) then r.ret else [])
           && a.gas == kept + r.gas
  }

  /** Before Homestead a CREATE that cannot pay for its code counts as done. */
  ghost predicate Succeeds(c: Ctx, e: Exec, r: Answer) {
    r.err == None || (e.OpCreate? && !c.host.fork.AtLeast(Homestead) && r.err == Some(CodeStoreOutOfGas))
  }

  // ---- the objects of a run as values

  ghost function HostOf(evm: EVM): (h: Host)
    reads evm
  {
    Host(evm.fork, evm.env, evm.isExecuteJP, evm.depth, evm.readOnly)
  }

  ghost function CtxOf(evm: EVM, f: Frame): (c: Ctx)
    reads evm
  {
    Ctx(HostOf(evm), f.caller, f.address, f.value, f.code, f.input)
  }

  ghost function ViewOf(evm: EVM, f: Frame): (v: View)
    reads evm, f, f.mem
  {
    View(f.stack, f.mem.store, f.pc, f.gas, evm.db.world, evm.returnData)
  }

  /** Once the loop has added one to pc, which it does unless the frame ended. */
  ghost function Ahead(evm: EVM, f: Frame, out: Outcome): (v: View)
    reads evm, f, f.mem
  {
    ViewOf(evm, f).(pc := if out.Next? then WrapAdd(f.pc, 1) else f.pc)
  }
}

/** The mutable objects of a run: the EVM (vm/evm.go, vm/interpreter.go) and the scope of one frame
    (ScopeContext of vm/interpreter.go with the fields of vm/contract.go that change). */
module EvmState {
  import opened Uint
  import opened FrameMemory
  import opened JumpTable
  import opened Sstore
  import opened StateDb
  import opened CallTree
  import opened Jumpdest

  const CALL_DEPTH: nat := 1024
  const CALL_STIPEND: U64 := 2_300
  const CALL_VALUE_TRANSFER_GAS: U64 := 9_000

  /** vm/errors.go */
  datatype Err =
    | OutOfGas | CodeStoreOutOfGas | DepthExceeded | InsufficientBalance | AddressCollision | Reverted
    | MaxCodeSizeExceeded | InvalidJump | WriteProtection | ReturnDataOutOfBounds | GasUintOverflow | InvalidCode
    | NonceUintOverflow | StackUnderflow | StackOverflow | InvalidOpCode
    | PrecompileFailed | JournalFailed | AspectFailed(code: nat)

  /** What the instructions that only compute may look at. */
  datatype Context = Context(
    world: World, address: Address, caller: Address, value: nat, input: Bytes, code: Bytes,
    pc: U64, gas: U64, memory: seq<Byte>, returnData: seq<Byte>)

  /** A call as a join point sees it. */
  datatype HookCall = HookCall(caller: Address, to: Address, input: Bytes, gas: U64, value: nat)
  datatype HookResult = HookResult(ret: seq<Byte>, gas: U64, err: Option<Err>)

  /** A join point run by the aspect runtime: it never hands back more gas than it was given. */
  type PreCallHook = h: HookCall -> HookResult | forall c: HookCall :: h(c).gas <= c.gas
    witness (c: HookCall) => HookResult([], c.gas, None)
  type PostCallHook = h: (HookCall, seq<Byte>, Option<Err>) -> HookResult |
    forall c: HookCall, r: seq<Byte>, e: Option<Err> :: h(c, r, e).gas <= c.gas
    witness (c: HookCall, r: seq<Byte>, e: Option<Err>) => HookResult([], c.gas, None)

  /** Code outside the model: precompiles, hashes, address derivation, 256-bit arithmetic, join points. */
  datatype Env = Env(
    precompileGas: (Address, seq<Byte>) -> U64,
    precompileRun: (Address, seq<Byte>) -> (seq<Byte>, Option<Err>),
    createAddress: (Address, U64) -> Address,
    create2Address: (Address, Word, Bytes) -> Address,
    keccak: seq<Byte> -> Word,
    evaluate: (Byte, seq<Word>, Context) -> Word,
    journalFails: (Byte, seq<Word>, Context) -> bool,
    preCall: PreCallHook,
    postCall: PostCallHook)

  /** EVM.precompile: the tables of vm/contracts.go. */
  predicate IsPrecompile(fork: Fork, a: Address) {
    if fork.AtLeast(Berlin) then 1 <= a <= 9 || 100 <= a <= 102
    else if fork.AtLeast(Istanbul) then 1 <= a <= 9
    else if fork.AtLeast(Byzantium) then 1 <= a <= 8
    else 1 <= a <= 4
  }

  /** The four tables, and no fork drops a precompile. */
  lemma Precompiles(fork: Fork, later: Fork, a: Address)
    ensures !fork.AtLeast(Byzantium) ==> (IsPrecompile(fork, a) <==> a in {1, 2, 3, 4})
    ensures fork.AtLeast(Byzantium) && !fork.AtLeast(Istanbul) ==>
      (IsPrecompile(fork, a) <==> a in {1, 2, 3, 4, 5, 6, 7, 8})
    ensures fork == Istanbul ==> (IsPrecompile(fork, a) <==> a in {1, 2, 3, 4, 5, 6, 7, 8, 9})
    ensures fork.AtLeast(Berlin) ==>
      (IsPrecompile(fork, a) <==> a in {1, 2, 3, 4, 5, 6, 7, 8, 9, 100, 101, 102})
    ensures later.AtLeast(fork) && IsPrecompile(fork, a) ==> IsPrecompile(later, a)
  {
  }

  /** SSTORE_CLEARS_SCHEDULE of the fork. */
  function ClearRefund(fork: Fork): (n: nat) {
    if fork.AtLeast(London) then 4_800 else 15_000
  }

  class EVM {
    const fork: Fork
    const env: Env
    const isExecuteJP: bool
    var db: Db
    var tree: Tree
    var jumpdests: JumpdestMap
    var depth: nat
    var readOnly: bool
    var callGasTemp: U64
    var returnData: seq<Byte>

    constructor (fork: Fork, env: Env, isExecuteJP: bool, world: World)
      ensures this.fork == fork && this.env == env && this.isExecuteJP == isExecuteJP
      ensures db == Db(world, [], 0) && tree == Tree([], None) && depth == 0 && !readOnly
      ensures fresh(jumpdests)
      // nothing has been written yet: every run that starts here keeps what Valid says
      ensures world.Valid() && world.committed == world.vis.storage ==> Valid()
    {
      this.fork, this.env, this.isExecuteJP := fork, env, isExecuteJP;
      db, tree := Db(world, [], 0), Tree([], None);
      jumpdests := new JumpdestMap();
      depth, readOnly, callGasTemp, returnData := 0, false, 0, [];
      new;
      NothingCleared(ClearRefund(fork), world.vis.storage, world.refund);
    }

    /** Holds everywhere, also in a frame that is about to fail. */
    ghost predicate Intact()
      reads this, jumpdests
    {
      db.Valid() && db.world.Valid() && tree.Valid() && jumpdests.Valid()
    }

    /** Holds whenever a frame may go on or a call has returned: the refund counter can pay back every slot that
        was cleared. */
    ghost predicate Valid()
      reads this, jumpdests
    {
      Intact() && Bounded(fork, db.world)
    }
  }

  ghost predicate Bounded(fork: Fork, w: World) {
    RefundBound(ClearRefund(fork), w.committed, w.vis.storage, w.refund)
  }

  /** What any stretch of execution keeps: snapshots taken before it stay valid, addresses stay warm, the tracer
      comes back to the call it stood at, no ether is made, and a read-only stretch leaves the visible state alone. */
  ghost predicate Kept(d: Db, t: Tree, e: Db, u: Tree, frozen: bool) {
    && d.revisions <= e.revisions
    && d.world.accAddresses <= e.world.accAddresses
    && Extends(t, u)
    && Supply(e.world.vis.balances) <= Supply(d.world.vis.balances)
    && (frozen ==> e.world.vis == d.world.vis)
  }

  lemma KeptTransitive(d: Db, t: Tree, e: Db, u: Tree, f: Db, v: Tree, frozen: bool)
    requires Kept(d, t, e, u, frozen) && Kept(e, u, f, v, frozen)
    ensures Kept(d, t, f, v, frozen)
  {
    ExtendsTransitive(t, u, v);
  }

  /** The per-call scope. */
  class Frame {
    const address: Address
    const caller: Address
    const value: nat
    const code: Bytes
    const input: Bytes
    const mem: Memory
    const contract: Contract
    var gas: U64
    var stack: seq<Word>
    var pc: U64

    constructor (caller: Address, address: Address, value: nat, gas: U64, code: Bytes, input: Bytes,
                 jumpdests: JumpdestMap, codeHash: Hash)
      requires codeHash == NoHash || codeHash == HashOf(code)
      ensures this.caller == caller && this.address == address && this.value == value
      ensures this.gas == gas && this.code == code && this.input == input
      ensures stack == [] && pc == 0 && fresh(mem) && mem.store == []
      ensures fresh(contract) && contract.jumpdests == jumpdests && Valid()
    {
      this.caller, this.address, this.value := caller, address, value;
      this.gas, this.code, this.input := gas, code, input;
      stack, pc := [], 0;
      mem := new Memory();
      contract := new Contract(jumpdests, codeHash, code);
    }

    /** What holds at every loop head. */
    ghost predicate Valid()
      reads this, mem, contract
    {
      |stack| <= STACK_LIMIT && mem.Settled() && Analysed()
    }

    /** The frame's jump analysis is of its own code. */
    ghost predicate Analysed()
      reads contract
    {
      contract.code == code && contract.Own()
    }

    /** Contract.UseGas */
    method UseGas(n: U64) returns (ok: bool)
      modifies this`gas
      ensures ok <==> n <= old(gas)
      ensures gas == old(gas) - if ok then n else 0
    {
      if gas < n {
        return false;
      }
      gas := gas - n;
      return true;
    }

    /** Contract.GetOp: past the end of the code there is STOP. */
    function GetOp(): (op: Byte)
      reads this
    {
      if pc < |code| then code[pc] else 0
    }

    /** Stack.pop, n times: the top word first. */
    function Top(n: nat): (args: seq<Word>)
      requires n <= |stack|
      reads this
      ensures |args| == n && forall i :: 0 <= i < n ==> args[i] == Back(stack, i)
    {
      seq(n, i requires 0 <= i < n reads this requires n <= |stack| => Back(stack, i))
    }
  }

  /** How one instruction ends. */
  datatype Outcome = Next | Stop(ret: seq<Byte>) | Fail(err: Err, ret: seq<Byte>)
}

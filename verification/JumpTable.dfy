/** vm/jump_table.go, vm/eips.go, vm/stack_table.go and vm/memory_table.go: what the interpreter knows of each
    opcode under each fork.  The function values of the source become values of small datatypes. */
module JumpTable {
  import opened Uint
  import opened FrameMemory
  import Bitmap

  const STACK_LIMIT: nat := 1024

  /** The forks, in the order NewEVMInterpreter tries them, oldest first. */
  datatype Fork =
    | Frontier | Homestead | TangerineWhistle | SpuriousDragon | Byzantium | Constantinople | Petersburg
    | Istanbul | Berlin | London | Merge | Shanghai | Cancun
  {
    function Rank(): (r: nat) {
      match this
      case Frontier => 0 case Homestead => 1 case TangerineWhistle => 2 case SpuriousDragon => 3
      case Byzantium => 4 case Constantinople => 5 case Petersburg => 6 case Istanbul => 7
      case Berlin => 8 case London => 9 case Merge => 10 case Shanghai => 11 case Cancun => 12
    }

    predicate AtLeast(f: Fork) { f.Rank() <= Rank() }
  }

  datatype CallKind = Call | CallCode | DelegateCall | StaticCall

  /** The executionFunc of an opcode. */
  datatype Exec =
    | OpStop | OpReturn | OpRevert | OpSelfdestruct | OpUndefined
    | OpPure(pops: nat)                  // pops words, pushes one that depends on nothing mutable but the context
    | OpPop | OpJump | OpJumpi | OpJumpdest
    | OpPush(size: nat) | OpDup(n: nat) | OpSwap(n: nat)
    | OpKeccak | OpMload | OpMstore | OpMstore8 | OpMcopy
    | OpCallDataCopy | OpCodeCopy | OpExtCodeCopy | OpReturnDataCopy
    | OpSload | OpSstore | OpTload | OpTstore
    | OpLog(topics: nat) | OpJournal(pops: nat)
    | OpCreate | OpCreate2 | OpCall(kind: CallKind)
  {
    /** Words the instruction takes off the stack. */
    function Pops(): (n: nat) {
      match this
      case OpStop => 0 case OpUndefined => 0 case OpJumpdest => 0 case OpPush(_) => 0
      case OpReturn => 2 case OpRevert => 2 case OpSelfdestruct => 1
      case OpPure(n) => n case OpJournal(n) => n
      case OpPop => 1 case OpJump => 1 case OpJumpi => 2
      case OpDup(n) => n case OpSwap(n) => n + 1
      case OpKeccak => 2 case OpMload => 1 case OpMstore => 2 case OpMstore8 => 2 case OpMcopy => 3
      case OpCallDataCopy => 3 case OpCodeCopy => 3 case OpReturnDataCopy => 3 case OpExtCodeCopy => 4
      case OpSload => 1 case OpTload => 1 case OpSstore => 2 case OpTstore => 2
      case OpLog(t) => 2 + t
      case OpCreate => 3 case OpCreate2 => 4
      case OpCall(k) => if k.Call? || k.CallCode? then 7 else 6
    }

    /** Words it puts back. */
    function Pushes(): (n: nat) {
      match this
      case OpDup(n) => n + 1 case OpSwap(n) => n + 1
      case OpPure(_) => 1 case OpPush(_) => 1 case OpKeccak => 1 case OpMload => 1
      case OpSload => 1 case OpTload => 1 case OpCreate => 1 case OpCreate2 => 1 case OpCall(_) => 1
      case _ => 0
    }

    /** It always ends the frame. */
    predicate Halts() {
      OpStop? || OpReturn? || OpRevert? || OpSelfdestruct? || OpUndefined?
    }

    /** The memory it reads or writes, as stack positions of offset and length; the source's instruction bodies. */
    function Footprint(): (m: MemorySize) {
      match this
      case OpKeccak => Range(0, 1) case OpReturn => Range(0, 1) case OpRevert => Range(0, 1)
      case OpLog(_) => Range(0, 1)
      case OpCallDataCopy => Range(0, 2) case OpCodeCopy => Range(0, 2) case OpReturnDataCopy => Range(0, 2)
      case OpExtCodeCopy => Range(1, 3)
      case OpMload => Fixed(0, 32) case OpMstore => Fixed(0, 32) case OpMstore8 => Fixed(0, 1)
      case OpMcopy => Mcopy
      case OpCreate => Range(1, 2) case OpCreate2 => Range(1, 2)
      case OpCall(k) => if k.Call? || k.CallCode? then TwoRanges(5, 6, 3, 4) else TwoRanges(4, 5, 2, 3)
      case _ => NoMemory
    }
  }

  // ---- vm/memory_table.go

  /** The memorySizeFunc of an opcode. */
  datatype MemorySize =
    | NoMemory
    | Range(off: nat, len: nat)
    | Fixed(off: nat, size: U64)
    | Mcopy
    | TwoRanges(off: nat, len: nat, off2: nat, len2: nat)
  {
    /** How deep it looks into the stack. */
    function Depth(): (d: nat) {
      match this
      case NoMemory => 0
      case Range(o, l) => 1 + Max(o, l)
      case Fixed(o, _) => 1 + o
      case Mcopy => 3
      case TwoRanges(o, l, o2, l2) => 1 + Max(Max(o, l), Max(o2, l2))
    }

    /** The size in bytes; None is the overflow flag. */
    function Size(stack: seq<Word>): (r: Option<U64>)
      requires Depth() <= |stack|
      ensures r.Some? ==> Fits(stack, r.value)
      ensures r == None ==> forall n: U64 :: !Fits(stack, n)
      ensures r.Some? ==> forall n: nat :: Fits(stack, n) ==> r.value <= n
    {
      match this
      case NoMemory => Some(0)
      case Range(o, l) => CalcMemSize(Back(stack, o), Back(stack, l))
      case Fixed(o, n) => CalcMemSizeWithUint(Back(stack, o), n)
      case Mcopy =>
        var start := if Back(stack, 1) > Back(stack, 0) then Back(stack, 1) else Back(stack, 0);
        CalcMemSize(start, Back(stack, 2))
      case TwoRanges(o, l, o2, l2) =>
        var x := CalcMemSize(Back(stack, o), Back(stack, l));
        if x == None then None
        else
          var y := CalcMemSize(Back(stack, o2), Back(stack, l2));
          if y == None then None else if x.value > y.value then x else y
    }

    /** Every range the instruction touches lies inside the first n bytes. */
    predicate Fits(stack: seq<Word>, n: nat)
      requires Depth() <= |stack|
    {
      match this
      case NoMemory => true
      case Range(o, l) => Inside(Back(stack, o), Back(stack, l), n)
      case Fixed(o, size) => Inside(Back(stack, o), size, n)
      case Mcopy => Inside(Back(stack, 0), Back(stack, 2), n) && Inside(Back(stack, 1), Back(stack, 2), n)
      case TwoRanges(o, l, o2, l2) =>
        Inside(Back(stack, o), Back(stack, l), n) && Inside(Back(stack, o2), Back(stack, l2), n)
    }
  }

  /** An empty range is inside any memory. */
  predicate Inside(off: nat, len: nat, n: nat) {
    len == 0 || off + len <= n
  }

  /** Stack.Back: the n-th word from the top. */
  function Back(stack: seq<Word>, n: nat): (w: Word)
    requires n < |stack|
  {
    stack[|stack| - 1 - n]
  }

  // ---- gas functions, by name

  datatype Dynamic =
    | NoDynamic
    | MemoryOnly
    | MemoryPlusWords(pos: nat, perWord: U64)   // memoryCopierGas, gasKeccak256, gasCreate2
    | InitCode(perWord: U64)                    // EIP-3860
    | ExpGas(perByte: U64)
    | LogGas(topics: nat)
    | ExtCodeCopyCold
    | AccountCheck
    | SloadCold
    | SstoreLegacy | SstoreEip2200 | SstoreCold(clearRefund: U64)
    | CallGas(kind: CallKind, cold: bool)
    | SelfdestructLegacy | SelfdestructCold(refunds: bool)
    | JournalGas
  {
    function Depth(): (d: nat) {
      match this
      case MemoryPlusWords(p, _) => 1 + p
      case InitCode(_) => 3
      case ExpGas(_) => 2
      case LogGas(_) => 2
      case ExtCodeCopyCold => 4
      case AccountCheck => 1 case SloadCold => 1
      case SstoreLegacy => 2 case SstoreEip2200 => 2 case SstoreCold(_) => 2
      case CallGas(_, _) => 3
      case SelfdestructLegacy => 1 case SelfdestructCold(_) => 1
      case _ => 0
    }

    predicate IsSstore() { SstoreLegacy? || SstoreEip2200? || SstoreCold? }

    /** The figures it multiplies with are small. */
    predicate Modest() {
      (InitCode? ==> perWord <= 8) && (ExpGas? ==> perByte <= 50) && (LogGas? ==> topics <= 4)
    }

    /** It charges for memory expansion. */
    predicate PaysMemory() {
      MemoryOnly? || MemoryPlusWords? || InitCode? || LogGas? || ExtCodeCopyCold? || CallGas?
    }

    /** The gas function itself always charges something. */
    predicate AlwaysCharges() {
      ExpGas? || LogGas? || SloadCold? || IsSstore() || JournalGas?
    }
  }

  datatype Operation = Operation(
    exec: Exec, constantGas: U64, dynamic: Dynamic, minStack: nat, maxStack: nat, memorySize: MemorySize)

  /** What the interpreter relies on in every table entry. */
  predicate Sound(o: Operation) {
    // stack bounds: what is popped is there, what is pushed has room
    && o.minStack == o.exec.Pops()
    && o.maxStack == STACK_LIMIT + o.exec.Pops() - o.exec.Pushes()
    && o.exec.Pushes() <= o.exec.Pops() + 1
    // gas and size functions look no deeper than the instruction pops
    && o.dynamic.Depth() <= o.minStack && o.memorySize.Depth() <= o.minStack
    // memory is sized for exactly what the instruction touches, and paid for
    && o.memorySize == o.exec.Footprint()
    && (o.memorySize != NoMemory <==> o.dynamic.PaysMemory())
    // every instruction that lets the frame go on costs something
    && (!o.exec.Halts() ==> o.constantGas > 0 || o.dynamic.AlwaysCharges())
    // gas functions that act on the state belong to their instruction
    && (o.exec.OpSstore? <==> o.dynamic.IsSstore())
    && (o.exec.OpCall? <==> o.dynamic.CallGas?) && (o.exec.OpCall? ==> o.exec.kind == o.dynamic.kind)
    && o.constantGas <= 32_000 && o.dynamic.Modest()
    && (o.exec.OpPush? ==> o.exec.size <= 32) && (o.exec.OpDup? ==> o.exec.n >= 1)
  }

  /** Up to Istanbul: no access-list pricing, and the functions that later change hands sit at fixed opcodes. */
  predicate BeforeBerlin(op: Byte, o: Operation) {
    && (o.dynamic.IsSstore() ==> op == 0x55 && !o.dynamic.SstoreCold?)
    && (o.dynamic.CallGas? ==> (op == 0xf1 || op == 0xf2 || op == 0xf4 || op == 0xfa) && !o.dynamic.cold)
  }

  /** From Berlin on: calls and stores are priced by the access list. */
  predicate SinceBerlin(op: Byte, o: Operation, clearRefund: U64) {
    && (o.dynamic.IsSstore() ==> op == 0x55 && o.dynamic == SstoreCold(clearRefund))
    && (o.dynamic.CallGas? ==> o.dynamic.cold)
  }

  // ---- the tables

  /** An entry without dynamic gas; its stack bounds are minStack and maxStack of its pops and pushes. */
  function Entry(exec: Exec, gas: U64): (o: Operation)
    requires exec.Pushes() <= exec.Pops() + 1 && gas <= 32_000
    requires (exec.OpPush? ==> exec.size <= 32) && (exec.OpDup? ==> exec.n >= 1)
    requires exec.Footprint() == NoMemory && (exec.Halts() || gas > 0) && !exec.OpSstore? && !exec.OpCall?
    ensures Sound(o)
  {
    Operation(exec, gas, NoDynamic, exec.Pops(), STACK_LIMIT + exec.Pops() - exec.Pushes(), NoMemory)
  }

  function Metered(exec: Exec, gas: U64, dynamic: Dynamic): (o: Operation)
    requires exec.Pushes() <= exec.Pops() + 1 && gas <= 32_000
    requires dynamic.Modest() && dynamic.Depth() <= exec.Pops() && exec.Footprint().Depth() <= exec.Pops()
    requires exec.Footprint() != NoMemory <==> dynamic.PaysMemory()
    requires exec.Halts() || gas > 0 || dynamic.AlwaysCharges()
    requires !exec.OpPush? && !exec.OpDup?
    requires exec.OpSstore? <==> dynamic.IsSstore()
    requires (exec.OpCall? <==> dynamic.CallGas?) && (exec.OpCall? ==> exec.kind == dynamic.kind)
    ensures Sound(o)
  {
    Operation(exec, gas, dynamic, exec.Pops(), STACK_LIMIT + exec.Pops() - exec.Pushes(), exec.Footprint())
  }

  const UNDEFINED: Operation := Operation(OpUndefined, 0, NoDynamic, 0, STACK_LIMIT, NoMemory)

  function Arithmetic(op: Byte): (o: Operation)
    ensures Sound(o) && BeforeBerlin(op, o)
  {
    if op == 0x00 then Entry(OpStop, 0)
    else if op == 0x01 || op == 0x03 then Entry(OpPure(2), 3)
    else if op == 0x0a then Metered(OpPure(2), 0, ExpGas(10))
    else if op == 0x02 || 0x04 <= op <= 0x07 || op == 0x0b then Entry(OpPure(2), 5)
    else if op == 0x08 || op == 0x09 then Entry(OpPure(3), 8)
    else if 0x10 <= op <= 0x14 || 0x16 <= op <= 0x18 || op == 0x1a then Entry(OpPure(2), 3)
    else if op == 0x15 || op == 0x19 then Entry(OpPure(1), 3)
    else if op == 0x20 then Metered(OpKeccak, 30, MemoryPlusWords(1, 6))
    else UNDEFINED
  }

  function Environment(op: Byte): (o: Operation)
    ensures Sound(o) && BeforeBerlin(op, o)
  {
    if op == 0x31 || op == 0x3b then Entry(OpPure(1), 20)
    else if op == 0x35 then Entry(OpPure(1), 3)
    else if op == 0x37 then Metered(OpCallDataCopy, 3, MemoryPlusWords(2, 3))
    else if op == 0x39 then Metered(OpCodeCopy, 3, MemoryPlusWords(2, 3))
    else if op == 0x3c then Metered(OpExtCodeCopy, 20, MemoryPlusWords(3, 3))
    else if 0x30 <= op <= 0x3a then Entry(OpPure(0), 2)
    else if op == 0x40 then Entry(OpPure(1), 20)
    else if 0x41 <= op <= 0x45 then Entry(OpPure(0), 2)
    else UNDEFINED
  }

  function Execution(op: Byte): (o: Operation)
    ensures Sound(o) && BeforeBerlin(op, o)
  {
    if op == 0x50 then Entry(OpPop, 2)
    else if op == 0x51 then Metered(OpMload, 3, MemoryOnly)
    else if op == 0x52 then Metered(OpMstore, 3, MemoryOnly)
    else if op == 0x53 then Metered(OpMstore8, 3, MemoryOnly)
    else if op == 0x54 then Entry(OpSload, 50)
    else if op == 0x55 then Metered(OpSstore, 0, SstoreLegacy)
    else if op == 0x56 then Entry(OpJump, 8)
    else if op == 0x57 then Entry(OpJumpi, 10)
    else if 0x58 <= op <= 0x5a then Entry(OpPure(0), 2)
    else if op == 0x5b then Entry(OpJumpdest, 1)
    else if 0x60 <= op <= 0x7f then Entry(OpPush(op - 0x5f), 3)
    else if 0x80 <= op <= 0x8f then Entry(OpDup(op - 0x7f), 3)
    else if 0x90 <= op <= 0x9f then Entry(OpSwap(op - 0x8f), 3)
    else UNDEFINED
  }

  function Recording(op: Byte): (o: Operation)
    ensures Sound(o) && BeforeBerlin(op, o)
  {
    if 0xa0 <= op <= 0xa4 then Metered(OpLog(op - 0xa0), 0, LogGas(op - 0xa0))
    else if op == 0xe0 then Metered(OpJournal(3), 0, JournalGas)
    else if op == 0xe1 || op == 0xe6 then Metered(OpJournal(4), 0, JournalGas)
    else if op == 0xe2 || op == 0xe4 then Metered(OpJournal(6), 0, JournalGas)
    else if op == 0xe3 || op == 0xe5 then Metered(OpJournal(5), 0, JournalGas)
    else if op == 0xe7 then Metered(OpJournal(2), 0, JournalGas)
    else UNDEFINED
  }

  function Closures(op: Byte): (o: Operation)
    ensures Sound(o) && BeforeBerlin(op, o)
  {
    if op == 0xf0 then Metered(OpCreate, 32_000, MemoryOnly)
    else if op == 0xf1 then Metered(OpCall(Call), 40, CallGas(Call, false))
    else if op == 0xf2 then Metered(OpCall(CallCode), 40, CallGas(CallCode, false))
    else if op == 0xf3 then Metered(OpReturn, 0, MemoryOnly)
    else if op == 0xff then Metered(OpSelfdestruct, 0, SelfdestructLegacy)
    else UNDEFINED
  }

  function FrontierTable(op: Byte): (o: Operation)
    ensures Sound(o) && BeforeBerlin(op, o)
  {
    if op < 0x30 then Arithmetic(op)
    else if op < 0x50 then Environment(op)
    else if op < 0xa0 then Execution(op)
    else if op < 0xf0 then Recording(op)
    else Closures(op)
  }

  function HomesteadTable(op: Byte): (o: Operation)
    ensures Sound(o) && BeforeBerlin(op, o)
  {
    if op == 0xf4 then Metered(OpCall(DelegateCall), 40, CallGas(DelegateCall, false)) else FrontierTable(op)
  }

  /** EIP-150 */
  function TangerineTable(op: Byte): (o: Operation)
    ensures Sound(o) && BeforeBerlin(op, o)
  {
    var o := HomesteadTable(op);
    if op == 0x31 then o.(constantGas := 400)
    else if op == 0x3b || op == 0x3c || op == 0xf1 || op == 0xf2 || op == 0xf4 then o.(constantGas := 700)
    else if op == 0x54 then o.(constantGas := 200)
    else o
  }

  function SpuriousTable(op: Byte): (o: Operation)
    ensures Sound(o) && BeforeBerlin(op, o)
  {
    if op == 0x0a then Metered(OpPure(2), 0, ExpGas(50)) else TangerineTable(op)
  }

  function ByzantiumTable(op: Byte): (o: Operation)
    ensures Sound(o) && BeforeBerlin(op, o)
  {
    if op == 0xfa then Metered(OpCall(StaticCall), 700, CallGas(StaticCall, false))
    else if op == 0x3d then Entry(OpPure(0), 2)
    else if op == 0x3e then Metered(OpReturnDataCopy, 3, MemoryPlusWords(2, 3))
    else if op == 0xfd then Metered(OpRevert, 0, MemoryOnly)
    else SpuriousTable(op)
  }

  function ConstantinopleTable(op: Byte): (o: Operation)
    ensures Sound(o) && BeforeBerlin(op, o)
  {
    if 0x1b <= op <= 0x1d then Entry(OpPure(2), 3)
    else if op == 0x3f then Entry(OpPure(1), 400)
    else if op == 0xf5 then Metered(OpCreate2, 32_000, MemoryPlusWords(2, 6))
    else ByzantiumTable(op)
  }

  /** EIP-1344, EIP-1884, EIP-2200 */
  function IstanbulTable(op: Byte): (o: Operation)
    ensures Sound(o) && BeforeBerlin(op, o)
  {
    var o := ConstantinopleTable(op);
    if op == 0x46 then Entry(OpPure(0), 2)
    else if op == 0x47 then Entry(OpPure(0), 5)
    else if op == 0x54 then o.(constantGas := 800)
    else if op == 0x31 || op == 0x3f then o.(constantGas := 700)
    else if op == 0x55 then Metered(OpSstore, 0, SstoreEip2200)
    else o
  }

  function ColdCall(kind: CallKind): (o: Operation)
    ensures Sound(o) && o.exec == OpCall(kind) && o.dynamic == CallGas(kind, true)
  {
    Metered(OpCall(kind), 100, CallGas(kind, true))
  }

  /** EIP-2929 */
  function BerlinTable(op: Byte): (o: Operation)
    ensures Sound(o) && SinceBerlin(op, o, 15_000)
  {
    if op == 0x55 then Metered(OpSstore, 0, SstoreCold(15_000))
    else if op == 0x54 then Metered(OpSload, 0, SloadCold)
    else if op == 0x3c then Metered(OpExtCodeCopy, 100, ExtCodeCopyCold)
    else if op == 0x3b || op == 0x3f || op == 0x31 then Metered(OpPure(1), 100, AccountCheck)
    else if op == 0xf1 then ColdCall(Call)
    else if op == 0xf2 then ColdCall(CallCode)
    else if op == 0xf4 then ColdCall(DelegateCall)
    else if op == 0xfa then ColdCall(StaticCall)
    else if op == 0xff then Metered(OpSelfdestruct, 5_000, SelfdestructCold(true))
    else IstanbulTable(op)
  }

  /** EIP-3529, EIP-3198 */
  function LondonTable(op: Byte): (o: Operation)
    ensures Sound(o) && SinceBerlin(op, o, 4_800)
  {
    if op == 0x55 then Metered(OpSstore, 0, SstoreCold(4_800))
    else if op == 0xff then Metered(OpSelfdestruct, 5_000, SelfdestructCold(false))
    else if op == 0x48 then Entry(OpPure(0), 2)
    else BerlinTable(op)
  }

  /** EIP-3855, EIP-3860 */
  function ShanghaiTable(op: Byte): (o: Operation)
    ensures Sound(o) && SinceBerlin(op, o, 4_800)
  {
    if op == 0x5f then Entry(OpPush(0), 2)
    else if op == 0xf0 then Metered(OpCreate, 32_000, InitCode(2))
    else if op == 0xf5 then Metered(OpCreate2, 32_000, InitCode(8))
    else LondonTable(op)
  }

  /** EIP-1153, EIP-5656 */
  function CancunTable(op: Byte): (o: Operation)
    ensures Sound(o) && SinceBerlin(op, o, 4_800)
  {
    if op == 0x5c then Entry(OpTload, 100)
    else if op == 0x5d then Entry(OpTstore, 100)
    else if op == 0x5e then Metered(OpMcopy, 3, MemoryPlusWords(2, 3))
    else ShanghaiTable(op)
  }

  /** The table NewEVMInterpreter picks.  Petersburg has no table of its own, and the merge only renames 0x44. */
  function Table(fork: Fork, op: Byte): (o: Operation)
    ensures Sound(o)
    ensures if !fork.AtLeast(Berlin) then BeforeBerlin(op, o)
            else SinceBerlin(op, o, if fork == Berlin then 15_000 else 4_800)
  {
    match fork
    case Frontier => FrontierTable(op)
    case Homestead => HomesteadTable(op)
    case TangerineWhistle => TangerineTable(op)
    case SpuriousDragon => SpuriousTable(op)
    case Byzantium => ByzantiumTable(op)
    case Constantinople => ConstantinopleTable(op)
    case Petersburg => ConstantinopleTable(op)
    case Istanbul => IstanbulTable(op)
    case Berlin => BerlinTable(op)
    case London => LondonTable(op)
    case Merge => LondonTable(op)
    case Shanghai => ShanghaiTable(op)
    case Cancun => CancunTable(op)
  }

  /** Running off the end of the code is a STOP under every fork. */
  lemma ZeroStops(fork: Fork)
    ensures Table(fork, 0).exec == OpStop
  {
  }

  /** The instruction skips as many code bytes as the jump analysis says. */
  predicate SkipsItsArgument(op: Byte, o: Operation) {
    Bitmap.PushSize(op) == if o.exec.OpPush? then o.exec.size else 0
  }

  lemma FrontierSkips(op: Byte)
    ensures SkipsItsArgument(op, FrontierTable(op))
  {
    hide Sound, BeforeBerlin;
  }

  lemma IstanbulSkips(op: Byte)
    ensures SkipsItsArgument(op, HomesteadTable(op)) && SkipsItsArgument(op, TangerineTable(op))
    ensures SkipsItsArgument(op, SpuriousTable(op)) && SkipsItsArgument(op, ByzantiumTable(op))
    ensures SkipsItsArgument(op, ConstantinopleTable(op)) && SkipsItsArgument(op, IstanbulTable(op))
  {
    hide Sound, BeforeBerlin, FrontierTable;
    FrontierSkips(op);
  }

  /** Under every fork, the bytes an instruction skips are the bytes the jump analysis marks as its argument. */
  lemma TableSkips(fork: Fork, op: Byte)
    ensures SkipsItsArgument(op, Table(fork, op))
  {
    hide Sound, BeforeBerlin, SinceBerlin, FrontierTable, HomesteadTable, TangerineTable, SpuriousTable, ByzantiumTable,
      ConstantinopleTable, IstanbulTable;
    FrontierSkips(op);
    IstanbulSkips(op);
  }

  // ---- the same, opcode by opcode

  /** One opcode: what it does, its constant gas and its gas function. */
  datatype Row = Row(exec: Exec, gas: nat, dynamic: Dynamic)

  ghost const NO_ROW: Row := Row(OpUndefined, 0, NoDynamic)

  /** What each opcode byte stands for under each fork, as the Yellow Paper and the EIPs list it.  The tables above are
      built fork upon fork; this is the flat list they must come to. */
  ghost function Opcode(fork: Fork, op: Byte): (r: Row) {
    if op < 0x30 then ArithmeticOpcode(fork, op)
    else if op < 0x50 then EnvironmentOpcode(fork, op)
    else if op < 0x60 then ExecutionOpcode(fork, op)
    else if op <= 0x7f then Row(OpPush(op - 0x5f), 3, NoDynamic)
    else if op <= 0x8f then Row(OpDup(op - 0x7f), 3, NoDynamic)
    else if op <= 0x9f then Row(OpSwap(op - 0x8f), 3, NoDynamic)
    else if op <= 0xa4 then Row(OpLog(op - 0xa0), 0, LogGas(op - 0xa0))
    else if 0xe0 <= op <= 0xe7 then Row(OpJournal([3, 4, 6, 5, 6, 5, 4, 2][op - 0xe0]), 0, JournalGas)
    else if op >= 0xf0 then SystemOpcode(fork, op)
    else NO_ROW
  }

  ghost function ArithmeticOpcode(fork: Fork, op: Byte): (r: Row) {
    if op == 0x00 then Row(OpStop, 0, NoDynamic)                                              // STOP
    else if op in {0x01, 0x03} then Row(OpPure(2), 3, NoDynamic)                              // ADD, SUB
    else if op in {0x02, 0x04, 0x05, 0x06, 0x07, 0x0b} then Row(OpPure(2), 5, NoDynamic)      // MUL to SMOD, SIGNEXTEND
    else if op in {0x08, 0x09} then Row(OpPure(3), 8, NoDynamic)                              // ADDMOD, MULMOD
    else if op == 0x0a then Row(OpPure(2), 0, ExpGas(if fork.AtLeast(SpuriousDragon) then 50 else 10))
    else if op in {0x15, 0x19} then Row(OpPure(1), 3, NoDynamic)                              // ISZERO, NOT
    else if 0x10 <= op <= 0x1a then Row(OpPure(2), 3, NoDynamic)                              // LT to BYTE
    else if 0x1b <= op <= 0x1d && fork.AtLeast(Constantinople) then Row(OpPure(2), 3, NoDynamic)
    else if op == 0x20 then Row(OpKeccak, 30, MemoryPlusWords(1, 6))
    else NO_ROW
  }

  ghost function EnvironmentOpcode(fork: Fork, op: Byte): (r: Row) {
    if op == 0x31 then                                                                        // BALANCE
      AccountOpcode(fork, if fork.AtLeast(Istanbul) then 700
                          else if fork.AtLeast(TangerineWhistle) then 400 else 20)
    else if op == 0x35 then Row(OpPure(1), 3, NoDynamic)                                      // CALLDATALOAD
    else if op == 0x37 then Row(OpCallDataCopy, 3, MemoryPlusWords(2, 3))
    else if op == 0x39 then Row(OpCodeCopy, 3, MemoryPlusWords(2, 3))
    else if op == 0x3b then AccountOpcode(fork, if fork.AtLeast(TangerineWhistle) then 700 else 20)
    else if op == 0x3c then
      if fork.AtLeast(Berlin) then Row(OpExtCodeCopy, 100, ExtCodeCopyCold)
      else Row(OpExtCodeCopy, if fork.AtLeast(TangerineWhistle) then 700 else 20, MemoryPlusWords(3, 3))
    else if op <= 0x3a then Row(OpPure(0), 2, NoDynamic)                                      // ADDRESS to GASPRICE
    else if op == 0x3d && fork.AtLeast(Byzantium) then Row(OpPure(0), 2, NoDynamic)           // RETURNDATASIZE
    else if op == 0x3e && fork.AtLeast(Byzantium) then Row(OpReturnDataCopy, 3, MemoryPlusWords(2, 3))
    else if op == 0x3f && fork.AtLeast(Constantinople) then                                   // EXTCODEHASH
      AccountOpcode(fork, if fork.AtLeast(Istanbul) then 700 else 400)
    else if op == 0x40 then Row(OpPure(1), 20, NoDynamic)                                     // BLOCKHASH
    else if 0x41 <= op <= 0x45 then Row(OpPure(0), 2, NoDynamic)                              // COINBASE to GASLIMIT
    else if op == 0x46 && fork.AtLeast(Istanbul) then Row(OpPure(0), 2, NoDynamic)            // CHAINID
    else if op == 0x47 && fork.AtLeast(Istanbul) then Row(OpPure(0), 5, NoDynamic)            // SELFBALANCE
    else if op == 0x48 && fork.AtLeast(London) then Row(OpPure(0), 2, NoDynamic)              // BASEFEE
    else NO_ROW
  }

  /** BALANCE, EXTCODESIZE, EXTCODEHASH */
  ghost function AccountOpcode(fork: Fork, before: nat): (r: Row) {
    if fork.AtLeast(Berlin) then Row(OpPure(1), 100, AccountCheck) else Row(OpPure(1), before, NoDynamic)
  }

  ghost function ExecutionOpcode(fork: Fork, op: Byte): (r: Row) {
    if op == 0x50 then Row(OpPop, 2, NoDynamic)
    else if op == 0x51 then Row(OpMload, 3, MemoryOnly)
    else if op == 0x52 then Row(OpMstore, 3, MemoryOnly)
    else if op == 0x53 then Row(OpMstore8, 3, MemoryOnly)
    else if op == 0x54 then
      if fork.AtLeast(Berlin) then Row(OpSload, 0, SloadCold)
      else Row(OpSload, if fork.AtLeast(Istanbul) then 800
                        else if fork.AtLeast(TangerineWhistle) then 200 else 50, NoDynamic)
    else if op == 0x55 then
      Row(OpSstore, 0, if fork.AtLeast(London) then SstoreCold(4_800)
                       else if fork.AtLeast(Berlin) then SstoreCold(15_000)
                       else if fork.AtLeast(Istanbul) then SstoreEip2200 else SstoreLegacy)
    else if op == 0x56 then Row(OpJump, 8, NoDynamic)
    else if op == 0x57 then Row(OpJumpi, 10, NoDynamic)
    else if 0x58 <= op <= 0x5a then Row(OpPure(0), 2, NoDynamic)                              // PC, MSIZE, GAS
    else if op == 0x5b then Row(OpJumpdest, 1, NoDynamic)
    else if op == 0x5c && fork.AtLeast(Cancun) then Row(OpTload, 100, NoDynamic)
    else if op == 0x5d && fork.AtLeast(Cancun) then Row(OpTstore, 100, NoDynamic)
    else if op == 0x5e && fork.AtLeast(Cancun) then Row(OpMcopy, 3, MemoryPlusWords(2, 3))
    else if op == 0x5f && fork.AtLeast(Shanghai) then Row(OpPush(0), 2, NoDynamic)
    else NO_ROW
  }

  ghost function SystemOpcode(fork: Fork, op: Byte): (r: Row) {
    if op == 0xf0 then Row(OpCreate, 32_000, if fork.AtLeast(Shanghai) then InitCode(2) else MemoryOnly)
    else if op == 0xf1 then CallOpcode(fork, Call)
    else if op == 0xf2 then CallOpcode(fork, CallCode)
    else if op == 0xf3 then Row(OpReturn, 0, MemoryOnly)
    else if op == 0xf4 && fork.AtLeast(Homestead) then CallOpcode(fork, DelegateCall)
    else if op == 0xf5 && fork.AtLeast(Constantinople) then
      Row(OpCreate2, 32_000, if fork.AtLeast(Shanghai) then InitCode(8) else MemoryPlusWords(2, 6))
    else if op == 0xfa && fork.AtLeast(Byzantium) then CallOpcode(fork, StaticCall)
    else if op == 0xfd && fork.AtLeast(Byzantium) then Row(OpRevert, 0, MemoryOnly)
    else if op == 0xff then
      if fork.AtLeast(Berlin) then Row(OpSelfdestruct, 5_000, SelfdestructCold(!fork.AtLeast(London)))
      else Row(OpSelfdestruct, 0, SelfdestructLegacy)
    else NO_ROW
  }

  ghost function CallOpcode(fork: Fork, kind: CallKind): (r: Row) {
    if fork.AtLeast(Berlin) then Row(OpCall(kind), 100, CallGas(kind, true))
    else Row(OpCall(kind), if fork.AtLeast(TangerineWhistle) then 700 else 40, CallGas(kind, false))
  }

  /** A table entry is the one of the flat list. */
  ghost predicate Matches(fork: Fork, op: Byte, o: Operation) {
    Row(o.exec, o.constantGas, o.dynamic) == Opcode(fork, op)
  }

  lemma ArithmeticMatches(op: Byte)
    requires op < 0x30
    ensures Matches(Frontier, op, Arithmetic(op))
  {
    hide Sound, BeforeBerlin;
  }

  lemma EnvironmentMatches(op: Byte)
    requires 0x30 <= op < 0x50
    ensures Matches(Frontier, op, Environment(op))
  {
    hide Sound, BeforeBerlin;
  }

  lemma ExecutionMatches(op: Byte)
    requires 0x50 <= op < 0xa0
    ensures Matches(Frontier, op, Execution(op))
  {
    hide Sound, BeforeBerlin;
  }

  lemma ClosuresMatch(op: Byte)
    requires 0xa0 <= op
    ensures Matches(Frontier, op, if op < 0xf0 then Recording(op) else Closures(op))
  {
    hide Sound, BeforeBerlin;
  }

  lemma FrontierMatches(op: Byte)
    ensures Matches(Frontier, op, FrontierTable(op))
  {
    hide Sound, BeforeBerlin, Matches, Arithmetic, Environment, Execution, Recording, Closures;
    if op < 0x30 {
      ArithmeticMatches(op);
    } else if op < 0x50 {
      EnvironmentMatches(op);
    } else if op < 0xa0 {
      ExecutionMatches(op);
    } else {
      ClosuresMatch(op);
    }
  }

  lemma HomesteadMatches(op: Byte)
    ensures Matches(Homestead, op, HomesteadTable(op))
  {
    hide Sound, BeforeBerlin, FrontierTable;
    FrontierMatches(op);
  }

  lemma TangerineMatches(op: Byte)
    ensures Matches(TangerineWhistle, op, TangerineTable(op))
  {
    hide Sound, BeforeBerlin, HomesteadTable;
    HomesteadMatches(op);
  }

  lemma SpuriousMatches(op: Byte)
    ensures Matches(SpuriousDragon, op, SpuriousTable(op))
  {
    hide Sound, BeforeBerlin, TangerineTable;
    TangerineMatches(op);
  }

  lemma ByzantiumMatches(op: Byte)
    ensures Matches(Byzantium, op, ByzantiumTable(op))
  {
    hide Sound, BeforeBerlin, SpuriousTable;
    SpuriousMatches(op);
  }

  lemma ConstantinopleMatches(op: Byte)
    ensures Matches(Constantinople, op, ConstantinopleTable(op))
  {
    hide Sound, BeforeBerlin, ByzantiumTable;
    ByzantiumMatches(op);
  }

  lemma IstanbulMatches(op: Byte)
    ensures Matches(Istanbul, op, IstanbulTable(op))
  {
    hide Sound, BeforeBerlin, ConstantinopleTable;
    ConstantinopleMatches(op);
  }

  lemma BerlinLowMatches(op: Byte)
    requires op < 0x50
    ensures Matches(Berlin, op, BerlinTable(op))
  {
    hide Sound, BeforeBerlin, SinceBerlin, IstanbulTable;
    IstanbulMatches(op);
  }

  lemma BerlinMatches(op: Byte)
    ensures Matches(Berlin, op, BerlinTable(op))
  {
    hide Sound, BeforeBerlin, SinceBerlin, IstanbulTable;
    if op < 0x50 {
      BerlinLowMatches(op);
    } else {
      IstanbulMatches(op);
    }
  }

  lemma LondonMatches(op: Byte)
    ensures Matches(London, op, LondonTable(op))
  {
    hide Sound, SinceBerlin, BerlinTable;
    BerlinMatches(op);
  }

  lemma ShanghaiMatches(op: Byte)
    ensures Matches(Shanghai, op, ShanghaiTable(op))
  {
    hide Sound, SinceBerlin, LondonTable;
    LondonMatches(op);
  }

  lemma CancunMatches(op: Byte)
    ensures Matches(Cancun, op, CancunTable(op))
  {
    hide Sound, SinceBerlin, ShanghaiTable;
    ShanghaiMatches(op);
  }

  /** Every entry of every fork's table is the one of the flat list: instruction, constant gas and gas function. */
  lemma TableMatches(fork: Fork, op: Byte)
    ensures Matches(fork, op, Table(fork, op))
  {
    hide Sound, BeforeBerlin, SinceBerlin, FrontierTable, HomesteadTable, TangerineTable, SpuriousTable, ByzantiumTable,
      ConstantinopleTable, IstanbulTable, BerlinTable, LondonTable, ShanghaiTable, CancunTable, Opcode;
    match fork {
      case Frontier => FrontierMatches(op);
      case Homestead => HomesteadMatches(op);
      case TangerineWhistle => TangerineMatches(op);
      case SpuriousDragon => SpuriousMatches(op);
      case Byzantium => ByzantiumMatches(op);
      case Constantinople => ConstantinopleMatches(op);
      case Petersburg => ConstantinopleMatches(op); SameRows(Petersburg, Constantinople, op);
      case Istanbul => IstanbulMatches(op);
      case Berlin => BerlinMatches(op);
      case London => LondonMatches(op);
      case Merge => LondonMatches(op); SameRows(Merge, London, op);
      case Shanghai => ShanghaiMatches(op);
      case Cancun => CancunMatches(op);
    }
  }

  lemma SameEra(fork: Fork, before: Fork, since: Fork)
    requires fork.Rank() == before.Rank() + 1 && since != fork
    ensures fork.AtLeast(since) <==> before.AtLeast(since)
  {
  }

  lemma SameLowRows(fork: Fork, before: Fork, op: Byte)
    requires fork.Rank() == before.Rank() + 1 && (fork == Petersburg || fork == Merge) && op < 0x50
    ensures Opcode(fork, op) == Opcode(before, op)
  {
    forall since | since != fork ensures fork.AtLeast(since) <==> before.AtLeast(since) {
      SameEra(fork, before, since);
    }
    hide Fork.AtLeast, Fork.Rank;
  }

  /** Petersburg and the merge change no opcode. */
  lemma SameRows(fork: Fork, before: Fork, op: Byte)
    requires fork.Rank() == before.Rank() + 1 && (fork == Petersburg || fork == Merge)
    ensures Opcode(fork, op) == Opcode(before, op)
  {
    forall since | since != fork ensures fork.AtLeast(since) <==> before.AtLeast(since) {
      SameEra(fork, before, since);
    }
    if op < 0x50 {
      SameLowRows(fork, before, op);
    }
    hide Fork.AtLeast, Fork.Rank, ArithmeticOpcode, EnvironmentOpcode;
  }
}

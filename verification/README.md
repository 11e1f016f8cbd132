# EVM call frames, gas, jump analysis and tracer

A Dafny model of the Artela fork of the go-ethereum EVM, with proofs about it. `dafny verify dfyconfig.toml` checks the
whole project.

The model follows the program's own parts:

- `Interpreter`, `Instructions`, `EvmState`, `StateDb`: the interpreter loop, the instructions, and the entry points
  `Call`, `CallCode`, `DelegateCall`, `StaticCall` and `create` that re-enter it. They are mutually recursive methods that
  change one `EVM` object and one `Frame` object per call, with gas as the measure that ends them. The predicate `Kept`
  collects what any stretch of execution keeps; `EVM.Valid` is the invariant of whole runs, and a fresh `EVM` meets it.
- `Semantics`: what a run means, on values: one turn by the opcode byte (`Turn`), a frame (`From`, `Yields`), a call and a
  creation (`Calls`, `CallCodes`, `DelegateCalls`, `StaticCalls`, `Creates`), defined together with gas as the measure and
  without the source's objects, tables, caches, snapshots and temporaries. `Step`, `Run`, `Call` and `Create` are
  proved to do exactly this. `Opcodes` spells it out for single opcode bytes, and `Programs` for a family of whole programs.
- `JumpTable`: what the interpreter knows of each opcode, fork upon fork, as functions. `Sound` says what it relies on, and
  `TableMatches` that every entry is the one of a flat list by opcode byte and fork (`Opcode`).
- `GasTable`, `Sstore`, `Eip150`, `FrameMemory`: dynamic gas, with `Price` as the price list every gas function is proved
  to charge; net-metered stores with a potential function; the 63/64 rule in wrapping arithmetic; memory and its
  quadratic fee in `uint64`.
- `Bitmap`, `Jumpdest`: the jump-destination bitmap, written in place a word at a time, and the caches on top, which
  every frame of a run goes through.
- `CallTree`, `StateChanges`, `Tracer`: the call tree, the storage-key tree with its two lookup routes, and the histories.
- `FlatTrace`, `FlatUnique`: the flat trace of nested call frames, its order and the uniqueness of its addresses.
- `BlockHash`: the ancestor cache behind BLOCKHASH.

The results reach across these parts. Running any code with any gas ends, and with what `Semantics` says of it, through
all calls and creations below. The refund counter never goes below zero in
any run, with nested frames that revert. A static call changes nothing visible. A failed call restores its state
exactly, with the one exception below. The program counter never stands inside a PUSH argument, and every jump is
answered rightly by whichever cache answers. No run makes ether. The memory panics, the refund panic and the access-list
panic cannot be reached.

Four properties one might expect do not hold of the code, and are stated with the exact condition under which they do:

- A call rejected by the pre-call join point returns before the revert and keeps the value transfer
  (`RejectionRestoresIff`, `RejectionKeepsTransfer`).
- Lookup by name and lookup by slot come apart exactly when a key is saved at a taken place under a new name, or at a
  free place where the name is taken and the entry is not, or the other way round (`SaveKey`, `AgreeIffLocal`,
  `SharedSlotBreaksAgreement`). Once apart they stay apart. Over a run they agree exactly when every
  accepted declaration fits those before it, as in any storage layout (`ConformsIffFits`, `LayoutConforms`, `Play`).
- Flat trace addresses are in order only when pre-call join points come first; they are unique, and a frame's children
  are exactly 0 to Subtraces-1, only when they do in every frame that makes calls (`OrderedIff`, `UniqueIff`,
  `SubtracesExactIff`, `PostBeforePre`).
- `getData` is called overflow safe in its comment; it returns the padded bytes exactly for sizes below 2^63
  (`GetDataRightIff`, `GetDataOversized`, `GetDataWraps`, `GetDataUnpadded`), which the interpreter's size functions
  guarantee (`CopyData`).

Assumptions on what the repository does not contain are parameters: the state database is a value with a snapshot stack,
used as the entry points use it; precompiles, hashing, address derivation, 256-bit arithmetic and environment
instructions are arbitrary pure functions (`Env`); join points are arbitrary functions that return no more gas than they
were given; since Berlin a call starts with its target in the access list, as the preparation of a transaction sees to;
`GetHeader` returns headers of the number asked for; a code hash stands for one code. The figures of the
gas schedule are those of the EIPs named beside them.

## Model

| member | source | states |
|---|---|---|
| `Interpreter.Run` | vm/interpreter.go:112-131 | A whole frame, with every frame below it, ends, and with exactly what Semantics.Yields says of its code: return data, error, gas and world; depth and readOnly have their old values on every path, and Kept holds: older snapshots stay valid, warm addresses stay warm, the call tree comes back, no ether is made, and a read-only run leaves the visible state alone |
| `Interpreter.Loop` | vm/interpreter.go:177-246 | The turns add up to Semantics.From; at every loop head gas has fallen, the stack is within 1024, memory is whole words paid for by Fee, the refund counter covers the cleared slots, and pc stands on an instruction, never inside a PUSH argument; the jump analyses of the frame and of all frames sharing its map are right |
| `Interpreter.Step` | vm/interpreter.go:177-240 | Semantics.Turn: which byte the program counter is at decides, through the flat opcode list, what is charged and what becomes of stack, memory, program counter, gas, world and return data, for every opcode under every fork, and how the frame ends if it does; a turn that goes on has strictly less gas than before |
| `Interpreter.Charge` | vm/interpreter.go:184-229 | Succeeds if and only if the stack is in bounds, the gas covers constantGas, and the rest is Chargeable; then exactly constantGas plus Price was taken, memory grew with zeros to what was billed, and the world is exactly Warmed; otherwise the error is the one Fault names |
| `Interpreter.ChargeDynamic` | vm/interpreter.go:197-229 | Succeeds if and only if the memory size fits uint64 and the price is Payable; memory grew with zeros to what was billed and no further |
| `Interpreter.MemoryNeeded` | vm/interpreter.go:203-214 | The least multiple of 32 that holds every range the instruction names; an error exactly when no uint64 multiple does |
| `Interpreter.AffordsIs` | vm/interpreter.go:184-229 | The checks of the loop, with the table entry, pass exactly when Affords holds of the opcode byte, and otherwise fail with its error |
| `Interpreter.PaidIsCharged` | vm/interpreter.go:184-229 | The frame after the charge is exactly Charged of the frame before it |
| `Interpreter.FootprintNeeds` | vm/memory_table.go:19-122 | The size function of every instruction gives what its operands need, in whole words |
| `Interpreter.OneByteLong` | vm/interpreter.go:235-239 | From any instruction but PUSH the byte after it is an instruction again, under every fork |
| `Interpreter.LocalFlow` | vm/instructions.go:538-567 | PUSH, JUMP, JUMPI, JUMPDEST as FlowTurn says; afterwards the program counter again stands on an instruction in the sense of the jump analysis, and the shared map stays right |
| `Interpreter.FreshMap` | vm/contract.go:66-83 | A frame called from outside starts an empty map, any other shares its caller's |
| `Interpreter.Execute` | vm/interpreter.go:235-239 | Every instruction does what Semantics.Does says of its opcode, keeps what Kept says, leaves less gas than the loop head had, and lands on an instruction |
| `Interpreter.ExecuteLocal` | vm/interpreter.go:235-239 | The same for instructions that stay in the frame (LocalTurn); none of them touches gas |
| `Interpreter.LocalHalt` | vm/instructions.go:801-837 | STOP, RETURN, REVERT, SELFDESTRUCT and undefined opcodes as HaltTurn says: what is returned and what the world is; a self-destruct makes no ether |
| `Interpreter.LocalState` | vm/instructions.go:528-536 | SSTORE, TSTORE and LOG as StateTurn says; after a store the refund counter still covers the slots it cleared; read-only frames change nothing |
| `Interpreter.LocalMemory` | vm/instructions.go:500-518 | Memory and copy instructions as MemoryTurn says, byte by byte; the memory stays paid for and the stack in bounds |
| `Interpreter.LocalStack` | vm/instructions.go:909-924 | POP, DUP, SWAP, SLOAD, TLOAD, the computing and the journal instructions as StackTurn says, word by word; the height stays within 0 to 1024 |
| `Interpreter.ExecuteCall` | vm/instructions.go:669-799 | CallTurn: the callee gets the gas handed down plus the stipend, which is less than the loop head had; what the call comes to decides flag, return data in memory and buffer, gas and world, and still leaves less gas; a read-only CALL with value is refused and nothing else is |
| `Interpreter.EnterCall` | vm/instructions.go:669-692 | The operands are the address, the value, the argument bytes and the gas the call of Semantics.Enters is made with, and its answer is returned |
| `Interpreter.FinishCall` | vm/instructions.go:694-707 | Flag, memory, return buffer and gas after a call, byte by byte; `Gas += returnGas` does not overflow |
| `Interpreter.Dispatch` | vm/instructions.go:669-799 | Each kind makes the call Semantics.Enters names: CALLCODE as the frame, DELEGATECALL with the frame's own caller and value, STATICCALL read-only and without value |
| `Interpreter.Call` | vm/evm.go:238-397 | Semantics.Calls: return data, error, gas and world of the call are those of the callee's code run in the entered state, as the join points let it start and end; and CallSettled: a failed call restores the state exactly and gives back gas only when it reverted, except a pre-call rejection, which keeps the transfer; depth and balance failures cost nothing; the tracer records one call and returns to where it was |
| `Interpreter.CallBody` | vm/evm.go:257-397 | The same between SaveCall and ExitCall |
| `Interpreter.RunTarget` | vm/evm.go:313-397 | The call once the value has moved: precompile, account without code, join points and code, and the exact answer of each |
| `Interpreter.RunWithHook` | vm/evm.go:345-381 | Without join points the answer is the one the callee's code gave; with them it is what the post-call join point makes of that answer: its gas, its error instead of the callee's, its data unless it ran out of gas |
| `Interpreter.RejectionRestoresIff` | vm/evm.go:334-340 | A pre-call rejection leaves the state alone if and only if the caller calls itself, or sends nothing and exists; otherwise exactly the value has moved |
| `Interpreter.RejectionKeepsTransfer` | vm/evm.go:334-340 | A call to an ordinary contract on an EVM whose pre-call join point rejects: it fails, and 3 of the caller's 5 stay with the callee |
| `Interpreter.StopCalls` | vm/evm.go:313-397 | A permitted call without join points of code that begins with STOP ends without error, data or gas spent, in the entered state |
| `Interpreter.StopYields` | vm/interpreter.go:177-246 | Such code answers at once, with nothing and for nothing |
| `Interpreter.StopKeepsTransfer` | vm/evm.go:238-397 | The call of RejectionKeepsTransfer without join points: no error, all gas back, and 3 of 5 moved |
| `Interpreter.CallsSettle` | vm/evm.go:386-397 | Whatever the callee does, a call ends as CallSettled says |
| `Interpreter.CallCode` | vm/evm.go:406-447 | Semantics.CallCodes: foreign code runs as the caller and its answer is returned; exact rollback |
| `Interpreter.DelegateCall` | vm/evm.go:454-491 | Semantics.DelegateCalls: foreign code runs as the frame with its caller and value, and its answer is returned; exact rollback |
| `Interpreter.StaticCall` | vm/evm.go:497-547 | Semantics.StaticCalls: the callee's answer, read-only; storage, transient storage, code, nonces, balances, logs and self-destructs are equal before and after, whatever runs below |
| `Interpreter.RunCode` | vm/evm.go:428-446 | The answer of the precompile, at its price, or of the code, then settled: exact rollback to the snapshot state |
| `Interpreter.BorrowsSettle` | vm/evm.go:439-446 | A failed call of the three kinds restores the state and keeps gas only when it reverted |
| `Interpreter.Settle` | vm/evm.go:386-394 | The snapshot is still valid when it is used, and reverting to it gives the state and the snapshot stack it was taken in |
| `Interpreter.RunPrecompiled` | vm/contracts.go:169-178 | A precompile that cannot be paid for does not run; one that runs costs exactly its price |
| `Interpreter.ExecuteCreate` | vm/instructions.go:583-667 | CreateTurn: address, endowment, init code and gas set aside come from the operands; what the creation comes to decides the pushed word, the return buffer, gas and world; refused exactly when read-only |
| `Interpreter.EnterCreate` | vm/instructions.go:583-667 | The init code is the named memory range, the creation gets all but one 64th of the gas since EIP-150, and the stack gets the address or zero |
| `Interpreter.FinishCreate` | vm/instructions.go:604-626 | Return buffer and gas after a create |
| `Interpreter.Create` | vm/evm.go:562-659 | Semantics.Creates: return data, error, gas and world are those of the init code run in the new account and of the deposit; and CreateSettled: a permitted creation that fails leaves the caller's nonce one higher, the address warm and nothing else; a successful one has put the returned code in place; the tracer records one call |
| `Interpreter.CreateBody` | vm/evm.go:571-659 | The same between SaveCall and ExitCall |
| `Interpreter.RunInit` | vm/evm.go:605-648 | The answer of the init code and what the deposit makes of it; exact rollback to the snapshot |
| `Interpreter.CreatesSettle` | vm/evm.go:641-648 | Whatever the init code does, a creation ends as CreateSettled says |
| `Interpreter.Deposit` | vm/evm.go:618-639 | The error, exactly: size over 24576 since EIP-158, first byte 0xEF since London, fewer than 200 gas a byte; code is stored and paid for exactly when there is none |
| `Interpreter.BoundedWithout` | vm/evm.go:594-600 | Wiping a new account's storage keeps the refund bound |
| `Semantics.EnteredMoves` | vm/evm.go:291-295 | Exactly the value moves, both accounts exist afterwards, and nothing else changed |
| `Semantics.Announced` | vm/evm.go:579-588 | The caller's nonce is one higher, every other nonce and everything else visible is kept, and the address is warm since Berlin |
| `Semantics.CreatedIs` | vm/evm.go:594-602 | What the init code finds: no code, no storage, nonce 1 since EIP-158, and the endowment moved from the caller; every other account is kept |
| `Semantics.PushValueIs` | vm/instructions.go:869-907 | The pushed word has exactly the argument bytes, zero past the end of the code, as its big-endian bytes |
| `Opcodes.LoadOpcodes` | vm/instructions.go:520-526 | Byte 0x50, 0x54, 0x5c: the top is dropped, or replaced by the word its slot holds in storage or transient storage; everything else is kept |
| `Opcodes.ShuffleOpcodes` | vm/instructions.go:909-924 | Bytes 0x80 to 0x9f: which word is copied, which two are exchanged |
| `Opcodes.MloadOpcode` | vm/instructions.go:500-505 | Byte 0x51: the big-endian word at the offset, in memory grown with zeros |
| `Opcodes.MstoreOpcodes` | vm/instructions.go:507-518 | Bytes 0x52 and 0x53: the bytes written, and every other byte kept |
| `Opcodes.McopyOpcode` | vm/eips.go:262-272 | Byte 0x5e: as through a buffer, zeros where memory was not there |
| `Opcodes.StoreOpcodes` | vm/instructions.go:528-536 | Bytes 0x55 and 0x5d: refused when read-only, otherwise one slot gets the value and nothing else visible changes |
| `Opcodes.LogOpcodes` | vm/instructions.go:842-867 | Bytes 0xa0 to 0xa4: one log with the address, the topics from the stack and the memory range |
| `Opcodes.HaltOpcodes` | vm/instructions.go:801-837 | Bytes 0x00, 0xf3, 0xfd, 0xff: what is returned, with which error, and where the balance goes |
| `Programs.ProgramPlays` | vm/interpreter.go:177-246 | Any program of PUSH1 PUSH1 SSTORE, with any gas, ends as the store-by-store account of gas and refund says, and otherwise for want of gas |
| `Programs.StoreCall` | vm/gas_table_test.go:84-112 | A call of such a program: its gas and refund counter, or all gas gone and the state restored |
| `Programs.TestEip2200` | vm/gas_table_test.go:55-112 | Every row of the table: used gas, refund counter and failure |
| `StateDb.RevertsExactly` | vm/interface.go:74-75 | A revert finds its snapshot under anything stacked above it, and gives back that state and that stack |
| `StateDb.SupplyAfterSet` | core/evm.go:130-133 | The ether in existence changes by exactly what one balance changes by |
| `StateDb.TransferKeepsSupply` | core/evm.go:130-133 | A transfer neither makes nor burns ether, also to oneself |
| `EvmState.EVM.constructor` | vm/evm.go:183-195 | A fresh EVM over an unwritten state meets the invariant that every run keeps |
| `EvmState.Frame.UseGas` | vm/contract.go:162-168 | Gas is taken in full or not at all |
| `EvmState.Precompiles` | vm/contracts.go:61-112 | Which addresses are precompiles under which fork, and no fork drops one |
| `GasTable.DynamicGas` | vm/interpreter.go:214-221 | Every gas function returns exactly Price of the state it found, and a price the gas covers if and only if Payable; it leaves the world exactly Warmed, sets aside exactly HandedDown for a call, keeps the refund counter able to cover the coming store, and puts back any gas it took |
| `GasTable.CallGas` | vm/operations_acl.go:160-198 | Exactly Price, Payable, Warmed and HandedDown for every call kind, before and after Berlin |
| `GasTable.AccessGas` | vm/operations_acl.go:103-158 | Exactly Price, Payable and Warmed: what was touched is warm and nothing else changed |
| `GasTable.LocalGas` | vm/gas_table.go:224-371 | Exactly Price and Payable, from the frame alone |
| `GasTable.ExpansionGas` | vm/gas_table.go:224-345 | The same for those that charge for memory |
| `GasTable.WordGas` | vm/gas_table.go:65-87 | Expansion plus the price per word, without a wrapped product or sum; an error only when the true cost leaves uint64 |
| `GasTable.InitCodeGas` | vm/gas_table.go:313-345 | Fails exactly above the size limits; the unchecked product does not wrap |
| `GasTable.LogGas` | vm/gas_table.go:231-259 | The exact price of a log, or an error when it leaves uint64 |
| `GasTable.ExpGas` | vm/gas_table.go:347-371 | 10 plus the price per byte of the exponent; never overflows |
| `GasTable.SloadGas` | vm/operations_acl.go:103-114 | Cold once, warm after |
| `GasTable.AccountCheckGas` | vm/operations_acl.go:148-158 | The cold surcharge exactly when the account was cold, and it is warm after |
| `GasTable.ExtCodeCopyGas` | vm/operations_acl.go:121-139 | Copy price plus the cold surcharge, or an error only above the limits |
| `GasTable.SelfdestructGas` | vm/operations_acl.go:223-244 | Exact price, refund and warming, before and after EIP-2929 |
| `GasTable.NetSstoreGas` | vm/gas_table.go:136-164 | The step-by-step counter updates come to NetGas and NetRefund: dearer than a read exactly when the slot is still as it began and changes, the counter moved exactly by clearing, unclearing and restoring; it never underflows on the way |
| `GasTable.SstoreGas` | vm/operations_acl.go:27-96 | For all three rule sets and the older one, with their figures: gas and counter each exactly by original, current and new value (StoreCost, StoreRefund), the sentry error, and a counter that covers the store to come; the access-list panic is the precondition, and the interpreter loop always meets it |
| `GasTable.ScheduledGas` | vm/gas_table.go:136-164 | NetGas and NetRefund of the slot, with a refund counter that covers the store to come |
| `GasTable.LegacySstoreGas` | vm/gas_table.go:105-120 | Exact price and refund of the pricing before net metering, and the refund bound |
| `GasTable.NetChargeIs` | vm/gas_table.go:136-164 | The nested clauses of the rule sets are NetGas and NetRefund, gas and counter apart |
| `GasTable.LegacyKeepsBound` | vm/gas_table.go:105-120 | Clearing before net metering keeps the refund bound |
| `GasTable.PlainCallGas` | vm/gas_table.go:373-463 | Base price plus what the 63/64 rule hands down; affordable if and only if the base price is, since EIP-150, and before it base plus request |
| `GasTable.CallSurcharge` | vm/gas_table.go:373-391 | The price of a new account and of a transfer |
| `GasTable.ColdCallGas` | vm/operations_acl.go:160-192 | The cold charge is put back exactly, the unchecked sum never wraps, the whole is affordable if and only if base plus surcharge is, and then the callee gets the smaller of the request and all but one 64th of what is left |
| `GasTable.TableFitsFork` | vm/jump_table.go:84-145 | Access-list pricing is in the table exactly from Berlin on, with the fork's clearing refund |
| `GasTable.ToAddressIs` | vm/instructions.go:674-677 | The address is the number of the last 20 bytes of the word |
| `GasTable.ByteLenFits` | vm/gas_table.go:347-371 | The exponent has at most n bytes exactly when it is below 256 to the n |
| `Instructions.ExecuteFlow` | vm/instructions.go:538-567 | FlowTurn: a jump, asked through the frame's cache and the shared map, succeeds exactly on a valid destination and goes there; PUSH pushes its argument and skips it; both caches stay right |
| `Instructions.ExecuteStack` | vm/instructions.go:909-924 | StackTurn: POP, DUP, SWAP, SLOAD and TLOAD word by word; the height changes by pushes minus pops |
| `Instructions.ExecuteMemory` | vm/instructions.go:500-518 | MemoryTurn: MLOAD, MSTORE, MSTORE8, KECCAK256 and MCOPY byte by byte, inside the store |
| `Instructions.CopyWithin` | vm/eips.go:262-272 | MCOPY as if through a buffer, also when the ranges overlap |
| `Instructions.ExecuteCopy` | vm/instructions.go:304-394 | MemoryTurn: the copied bytes, zero-padded past the end of the source |
| `Instructions.CopyData` | vm/instructions.go:362-376 | An offset beyond uint64 reads zeros; the length is far below 2^63, so getData pads as promised |
| `Instructions.ExecuteReturnDataCopy` | vm/instructions.go:327-347 | MemoryTurn: copies exactly when the range lies inside the buffer, otherwise fails |
| `Instructions.ExecuteStore` | vm/instructions.go:528-536 | SSTORE and TSTORE fail and change nothing in a read-only frame, and write exactly one slot otherwise |
| `Instructions.ExecuteLog` | vm/instructions.go:842-867 | LOG fails and changes nothing in a read-only frame, and adds exactly one log otherwise |
| `Instructions.StoreTurn` | vm/operations_acl.go:27-96 | Gas function, charge and write of one SSTORE do to gas, refund counter, storage and warm slots exactly what Store does, and fail exactly when it does: so NetPrice and PathIndependent speak of the interpreter's stores |
| `Instructions.StoreByCost` | vm/operations_acl.go:27-96 | Store in terms of the price the gas function returns |
| `Instructions.ExecuteHalt` | vm/instructions.go:801-837 | HaltTurn: what each halting instruction returns, and the world it leaves |
| `Instructions.SelfDestructSupply` | vm/instructions.go:824-837 | A self-destruct conserves ether, except to oneself, where exactly the balance is burnt |
| `Sstore.StoreMovesPotential` | vm/gas_table.go:136-164 | Charge minus refund of one store is the read price plus the change of a potential of (original, current) |
| `Sstore.NetPrice` | vm/operations_acl.go:27-96 | For any run of stores: total charge minus refund is n reads, one cold surcharge per distinct slot not warm before, and a sum over slots of a function of original and final value |
| `Sstore.PathIndependent` | vm/operations_acl.go:27-96 | Two runs of equal length over the same slots to the same values cost the same net, in every rule set |
| `Sstore.TotalTakes` | vm/operations_acl.go:27-96 | The sum over slots does not depend on their order |
| `Sstore.StorePrice` | vm/operations_acl.go:27-96 | The net price of one store within a run |
| `Sstore.RunWarms` | vm/operations_acl.go:36-51 | A run warms exactly the slots it touches |
| `Sstore.StoreKeepsRefundBound` | vm/gas_table.go:150-156 | A store never takes more out of the counter than is there, and leaves the clearing refund times the cleared slots |
| `Sstore.RunKeepsRefundBound` | vm/gas_table.go:122-164 | The refund counter never goes below zero in any run |
| `Sstore.NothingCleared` | vm/gas_table.go:122-135 | The bound holds before the first store |
| `Sstore.ClearedAfterPut` | vm/gas_table.go:150-156 | A write changes the set of cleared slots by that slot at most |
| `Eip150.CallGas` | vm/gas.go:37-53 | The wrapping subtraction is harmless: base plus result is affordable exactly when base is, and then the result is the smaller of the request and all but one 64th of the rest |
| `Eip150.ColdChargeFits` | vm/operations_acl.go:185-190 | Adding the cold charge to the returned cost does not wrap |
| `FrameMemory.CalcMemSizeWithUint` | vm/common.go:37-50 | The exact sum, or the overflow flag exactly when it leaves uint64; an empty range needs nothing |
| `FrameMemory.CalcMemSize` | vm/common.go:27-32 | The same for a 256-bit length |
| `FrameMemory.ToWordSize` | vm/common.go:67-73 | The least number of words that holds the bytes, for every uint64 |
| `FrameMemory.GetDataRightIff` | vm/common.go:52-64 | Size bytes from start on, zero-padded, come back if and only if the size is below 2^63, whatever the data and the start |
| `FrameMemory.GetDataOversized` | vm/common.go:54-64 | From 2^63 on: the rest of the data unpadded, since the length is a negative int, or a panic exactly when the sum wraps |
| `FrameMemory.GetDataWraps` | vm/common.go:54-64 | One byte read from its end with the largest size: the slice panics |
| `FrameMemory.GetDataUnpadded` | vm/common.go:54-64 | 2^63 bytes of empty data: no bytes come back |
| `FrameMemory.MaxSizeIsExact` | vm/gas_table.go:33-40 | The size limit is exactly where the square of the word count leaves uint64 |
| `FrameMemory.LargestFee` | vm/gas_table_test.go:35-53 | The fee of the largest size |
| `FrameMemory.FeeFits` | vm/gas_table.go:41-50 | No product or sum of the fee leaves uint64 |
| `FrameMemory.FeesTelescope` | vm/gas_table.go:29-56 | Over any run of expansions the fees paid add up to the fee of the final size, which is the largest asked for |
| `FrameMemory.Memory.GasCost` | vm/gas_table.go:29-56 | Fails exactly above the limit; charges exactly 3 a word and the square of the words by 512, for the part that is new, and remembers the new fee |
| `FrameMemory.Memory.Resize` | vm/memory.go:62-66 | Grows with zeros to the larger size, after which length and remembered fee agree again |
| `FrameMemory.Memory.Set` | vm/memory.go:35-46 | Which bytes change, to what, and which do not |
| `FrameMemory.Memory.Set32` | vm/memory.go:50-59 | The big-endian word at the offset and nothing else |
| `FrameMemory.Memory.Copy` | vm/memory.go:111-116 | Overlap-safe copy |
| `FrameMemory.StoreLoad` | vm/memory.go:50-95 | A stored word is loaded back, every other byte kept |
| `FrameMemory.BytesRoundTrip` | vm/memory.go:50-59 | Big-endian bytes decode to the word they encode |
| `FrameMemory.BigEndian` | vm/memory.go:50-59 | Which byte of a word weighs what |
| `JumpTable.MemorySize.Size` | vm/memory_table.go:19-122 | The least memory that holds every range of the instruction; the overflow flag exactly when no uint64 does |
| `JumpTable.Table` | vm/interpreter.go:59-100 | Under every fork every opcode has stack bounds from its pops and pushes, a memory size equal to what its body touches, a price above zero unless it halts, and gas functions that belong to it |
| `JumpTable.TableMatches` | vm/jump_table.go:58-1116 | Every entry of every fork's table is that of the flat opcode list: instruction, constant gas, gas function |
| `JumpTable.FrontierMatches` | vm/jump_table.go:256-1116 | The same for the first table |
| `JumpTable.FrontierTable` | vm/jump_table.go:256-1116 | Every entry is sound in that sense |
| `JumpTable.Entry` | vm/stack_table.go:39-45 | minStack and maxStack of pops and pushes keep the height within 0 to 1024 |
| `JumpTable.TableSkips` | vm/instructions.go:885-907 | Under every fork the bytes an instruction skips are the bytes the jump analysis marks |
| `JumpTable.ZeroStops` | vm/contract.go:145-151 | Running off the end of the code stops, under every fork |
| `Bitmap.CodeBitmap` | vm/analysis.go:63-117 | For every code string: bit p is set exactly when a byte-by-byte scan says p is a PUSH argument; every store is inside the len/8+5 buffer |
| `Bitmap.MarkArgument` | vm/analysis.go:81-114 | The word-at-a-time stores mark exactly one argument, and the overwriting ones lose no bit because nothing ahead is set |
| `Bitmap.StartsAreNotData` | vm/analysis.go:74-117 | The scan agrees with the instruction-to-instruction walk of Yellow Paper section 9.4.3 |
| `Bitmap.DataIff` | vm/analysis.go:74-117 | A byte is data exactly when the argument of some PUSH1 to PUSH32 instruction covers it |
| `Bitmap.NextInstruction` | vm/analysis.go:81-87 | Stepping over an instruction and its argument lands on an instruction |
| `Bitmap.Set1` | vm/analysis.go:32-34 | Sets one bit, keeps the rest |
| `Bitmap.SetN` | vm/analysis.go:36-42 | Sets n bits across two bytes, keeps the rest, if nothing ahead is set |
| `Bitmap.Set8` | vm/analysis.go:44-48 | Sets eight bits across two bytes, keeps the rest |
| `Bitmap.Set16` | vm/analysis.go:50-55 | Sets sixteen bits across three bytes, keeps the rest |
| `Bitmap.CodeSegment` | vm/analysis.go:58-60 | Reads the negated bit |
| `Bitmap.TwoByteStore` | vm/analysis.go:36-48 | OR-ing one byte and overwriting the next loses nothing when nothing ahead is set |
| `Bitmap.ThreeByteStore` | vm/analysis.go:50-55 | The same for the sixteen-bit store |
| `Jumpdest.Contract.ValidJumpdest` | vm/contract.go:85-97 | True exactly for destinations inside the code that hold JUMPDEST and start an instruction, whichever cache answers |
| `Jumpdest.Contract.IsCode` | vm/contract.go:101-130 | The three analysis routes give the same answer; the shared map only grows, and only with right bitmaps |
| `Jumpdest.Contract.constructor` | vm/contract.go:66-83 | A frame starts without analysis, on the map it is given |
| `Jumpdest.AnswerAll` | vm/contract.go:66-130 | Any sequence of questions from any frames sharing one map is answered as without caches |
| `CallTree.AddKeepsValid` | vm/tracer.go:426-450 | Entering a call keeps the preorder numbering |
| `CallTree.ExitKeepsValid` | vm/tracer.go:453-463 | Leaving a call keeps it; leaving with none open does nothing |
| `CallTree.DescendantsContiguous` | vm/tracer.go:426-463 | The descendants of a call are one contiguous block of indices |
| `CallTree.WalkIsRange` | vm/tracer.go:426-450 | Walking the children lists depth first visits consecutive indices: the numbering is the preorder |
| `CallTree.FinishedCallIsBlock` | vm/evm.go:239-245 | The indices handed out during a finished call are exactly the call and its descendants |
| `CallTree.CallExtends` | vm/evm.go:563-569 | Add, anything below, exit: current is back, and all new calls hang below the one made |
| `CallTree.ChildIndicesExact` | vm/tracer.go:436-443 | Children lists are strictly increasing and complete |
| `CallTree.CallTree.Add` | vm/tracer.go:426-450 | The linked objects and the lookup table follow the tree as a value; lookup[i].Index is i |
| `CallTree.CallTree.Link` | vm/tracer.go:433-450 | Only the current call's children list grows, by the new call |
| `CallTree.CallTree.Exit` | vm/tracer.go:453-463 | Sets the result fields of the current call, returns to its parent, keeps the tree |
| `StateChanges.StorageKey.AddChild` | vm/tracer.go:124-142 | First come wins in both maps, separately |
| `StateChanges.StorageKey.JournalChanges` | vm/tracer.go:149-158 | Appends under the call index unless the last value is the same |
| `StateChanges.StateChanges.SaveKey` | vm/tracer.go:201-234 | Fails exactly on a wrong offset or an unknown parent, changing nothing; otherwise the entry is known afterwards exactly if it was or the place was not given out before, entries and roots stay, and lookups by name and by slot agree if and only if they did before and the declaration fits those before it |
| `StateChanges.StateChanges.Locate` | vm/tracer.go:211-224 | The parent: the root, made on first use, or the indexed key, if there is one |
| `StateChanges.StateChanges.Attach` | vm/tracer.go:215-233 | One key under a given parent: the routes agree afterwards if and only if they did before and the key conforms: at a taken place the name is known, at a free place the name is taken exactly when the entry is |
| `StateChanges.StateChanges.Hang` | vm/tracer.go:124-142 | The stores: which of the three tables get the new key |
| `StateChanges.StateChanges.AgreeIffLocal` | vm/tracer.go:278-321 | All name walks and all slot lookups agree if and only if names of live keys lead to live keys and live keys are so named |
| `StateChanges.StateChanges.NewPlaceLocalIff` | vm/tracer.go:130-141 | At a free place the routes agree exactly when they did before and name and entry are both free or both taken |
| `StateChanges.StateChanges.OldPlaceLocalIff` | vm/tracer.go:130-141 | At a taken place the routes agree exactly when they did before and the name is already known there |
| `StateChanges.StateChanges.LayoutConforms` | vm/tracer.go:201-234 | While the declarations are a storage layout, every further one that fits it conforms, and at a taken place its entry is known |
| `StateChanges.StateChanges.ConformsIffFits` | vm/tracer.go:130-141 | A key conforms exactly when its declaration fits the list of declarations before it |
| `StateChanges.StateChanges.PlaceIffTaken` | vm/tracer.go:130-141 | A place is filled exactly when it has been given out |
| `StateChanges.StateChanges.NameIffTaken` | vm/tracer.go:126-129 | A name leads somewhere exactly when it has been given out |
| `StateChanges.StateChanges.AddKey` | vm/tracer.go:261-275 | The first node keeps the index entry |
| `StateChanges.StateChanges.SaveChange` | vm/tracer.go:237-258 | Succeeds exactly for a declared slot, and logs the value there |
| `StateChanges.StateChanges.SaveBalance` | vm/tracer.go:180-187 | Logs the value at the account's root |
| `StateChanges.StateChanges.FindKeyIndices` | vm/tracer.go:302-321 | The walk along the names, also when the routes disagree |
| `StateChanges.StateChanges.Reachable` | vm/tracer.go:201-234 | Every node is reached from its account's root |
| `StateChanges.StateChanges.OneParent` | vm/tracer.go:124-142 | No node has two parents |
| `StateChanges.StateChanges.FoundByName` | vm/tracer.go:302-321 | When the routes agree step by step, every root and entry holder is found under its own name path |
| `StateChanges.StateChanges.MissingStaysMissing` | vm/tracer.go:302-321 | Below a missing name there is nothing |
| `StateChanges.StateChanges.FoundAsNamed` | vm/tracer.go:278-290 | An index entry is a node with exactly that account, slot, offset and type |
| `StateChanges.StateChanges.EnsureRoot` | vm/tracer.go:205-209 | One root per account |
| `StateChanges.SharedSlotBreaksAgreement` | vm/tracer.go:130-141 | Two names for one slot: the second name and its own slot, offset and type lead to different keys |
| `StateChanges.DeclareOne` | vm/tracer.go:201-234 | One variable of a fresh account: both routes lead to the same key |
| `StateChanges.CollapseAppends` | vm/tracer.go:30-40 | Appending unless equal to the last value is appending and then collapsing repeats |
| `Tracer.Tracer.Play` | vm/tracer.go:525-566 | For any interleaving of calls, exits and saves: the known keys are those replayed from the events; an event is in the log if and only if it is a balance or a change of a key known then, in order; each is saved to the key it names, which is the one found there, under the call current then; a key's history under call index i is exactly that, repeats collapsed; the two lookup routes agree at the end if and only if they did at the start and every accepted declaration fits those before it, so always when the declarations are a layout, and then everything declared is found |
| `Tracer.Tracer.Do` | vm/tracer.go:520-566 | Exactly which events save, to which key, under which index, which keys they make known, and when the routes still agree |
| `Tracer.LogStoryGoesOn` | vm/tracer.go:525-527 | One more event keeps the log complete and in order |
| `Tracer.Tracer.SaveStateChange` | vm/tracer.go:525-527 | A save goes under the current call index |
| `FlatTrace.FlatFromNested` | tracers/native/call_flat.go:258-338 | Fails exactly when some frame below has a type other than the seven; otherwise emits the numbered tree in order, and the first frame, at the given address, shows the input: FlatCreate exactly for CREATE and CREATE2, FlatSuicide exactly for SELFDESTRUCT, its error, a result exactly when it is no self-destruct and succeeded or reverted, and the subtrace count |
| `FlatTrace.FlatAspectNested` | tracers/native/call_flat.go:340-370 | The same for a join point |
| `FlatTrace.FlatPre` | tracers/native/call_flat.go:288-306 | The pre-call loop |
| `FlatTrace.FlatCalls` | tracers/native/call_flat.go:309-319 | The sub-call loop |
| `FlatTrace.FlatPost` | tracers/native/call_flat.go:322-336 | The post-call loop |
| `FlatTrace.OrderedIff` | tracers/native/call_flat.go:258-370 | Trace addresses strictly increase if and only if in every frame the pre-call join points come first |
| `FlatTrace.AscendingIff` | tracers/native/call_flat.go:258-370 | Emission order is lexicographic exactly when sibling numbers grow everywhere |
| `FlatTrace.NumbersRightIff` | tracers/native/call_flat.go:274-336 | The branches of a frame are numbered 0 to Subtraces-1 in the order of emission exactly when the pre-call join points come first, and exactly when the numbers grow at all |
| `FlatTrace.PreFirstIff` | tracers/native/call_flat.go:258-370 | The same for the whole tree |
| `FlatTrace.RebuildsTrace` | tracers/native/call_flat.go:258-370 | Read back, the list gives the nested trace: frame by frame the kind, error, result flag and subtraces of the input, pre-call join points, calls and other join points in their order |
| `FlatTrace.TreeShows` | tracers/native/call_flat.go:258-370 | The numbered tree has exactly the frames of the nested trace |
| `FlatTrace.ParseEmit` | tracers/native/call_flat.go:258-370 | Parsing an emitted tree gives it back and leaves the rest |
| `BlockHash.HashLookup.GetHash` | core/evm.go:90-120 | Returns what an uncached ancestor walk returns |
| `BlockHash.HashLookup.Walk` | core/evm.go:103-119 | The walk ends, and leaves a cache that is a prefix of the ancestor hashes |
| `BlockHash.HashLookup.FetchedOnce` | core/evm.go:103-119 | No header is fetched twice |
| `BlockHash.UnknownStaysUnknown` | core/evm.go:105-112 | Behind an unknown header nothing is known |
| `BlockHash.AnswerAll` | core/evm.go:85-121 | Any sequence of queries is answered as without a cache |
| `FlatUnique.UniqueIff` | tracers/native/call_flat.go:258-370 | The addresses are all different if and only if every frame that makes calls has its pre-call join points first |
| `FlatUnique.SubtracesExactIff` | tracers/native/call_flat.go:258-370 | Every frame with Subtraces k has exactly the children 0 to k-1 in the list, if and only if every frame that makes calls has its pre-call join points first |
| `FlatUnique.MatchedIff` | tracers/native/call_flat.go:258-370 | The children match the subtrace counts exactly when every frame's branches use the numbers 0 to n-1 |
| `FlatUnique.NumbersFullIff` | tracers/native/call_flat.go:274-336 | One frame's branches use the numbers 0 to Subtraces-1, in whatever order, exactly when it makes no calls or its pre-call join points come first |
| `FlatUnique.DistinctIff` | tracers/native/call_flat.go:258-370 | Addresses are different exactly when sibling numbers are, at every frame |
| `FlatUnique.ApartIff` | tracers/native/call_flat.go:288-336 | The branches of one frame have different numbers exactly when it makes no calls or its pre-call join points come first |
| `FlatUnique.FrontIsPreFirst` | tracers/native/call_flat.go:288-336 | With calls in between, different numbers force the pre-call join points to the front |
| `FlatUnique.PostBeforePre` | tracers/native/call_flat.go:288-336 | Join points post, pre: out of order but complete and unique; with one call an address repeats and a child is missing |

## Left out

- Precompiled contracts: the tables by fork, and that running one is a pure function with a price; no cryptography.
- Join points: only their place in `Call` and their gas; a join point that itself changes the state is not modelled.
- Journal instructions: stack use, gas and possible failure in the interpreter; what they save is modelled as tracer events, not decoded from memory.
- 256-bit arithmetic, bit and environment instructions: the pushed word is an arbitrary function of opcode, operands and context.
- ExecuteStack: a word computed by an arithmetic or environment instruction is whatever the environment function says.
- EVM loggers, the debug branches and `CaptureState`: they observe and do not change a run.
- The abort flag and the stack pool: no bearing on the properties.
- ExtraEips: only the fork tables are modelled.
- Refund counter and call count: unbounded, without the wrap of `uint64`.
- Tracer.Tracer.Play: holds the call tree as a value, which the class `CallTree` is proved to follow; a raw state change (`SaveRawStateChange`) is not an event.
- EvmState.EVM.constructor: takes the tracer's call tree as a value in the same way; balance records of a transfer are tracer events and not part of a run.
- Semantics: in a frame that cannot pay for its next opcode, the refund counter and the access list it leaves are not stated; the caller's revert drops them.
- Programs.TestEip2200: stated under Istanbul, whose SSTORE the test enables through `ExtraEips`.
- FlatTrace.FlatFromNested: keeps of each frame its kind, error, whether a result is shown and the subtrace count; addresses, values, block context and error renaming are left out, and so is the removal of precompile calls.
- JumpTable.Table: its own contract has what the interpreter needs of every entry; the entries themselves are stated by `TableMatches`.
- FlatTrace.FlatAspectNested: keeps the same parts of a join point.
- StateDB: account deletion at the end of a transaction, and the journal behind snapshots, belong to code outside the repository.
- The other tracers, JSON, the runtime package, message plumbing: input and output.

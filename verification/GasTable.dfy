/** vm/gas_table.go and vm/operations_acl.go: the dynamic gas functions.  They charge for memory, warm the access
    list, move the refund counter and set callGasTemp while they compute a cost; None is an error return. */
module GasTable {
  import opened Uint
  import opened FrameMemory
  import opened JumpTable
  import opened Sstore
  import opened StateDb
  import opened EvmState
  import Eip150

  const COLD_ACCOUNT: U64 := 2_600
  const COLD_SLOAD: U64 := 2_100
  const WARM_READ: U64 := 100
  const MAX_INIT_CODE: U64 := 49_152

  /** `common.Address(w.Bytes20())` */
  function ToAddress(w: Word): (a: Address) {
    w % 0x1_0000_0000_0000_0000_0000_0000_0000_0000_0000_0000
  }

  /** It is the number written by the last 20 of the word's 32 bytes. */
  lemma ToAddressIs(w: Word)
    ensures ToAddress(w) == FromBytes(ToBytes(w, 32)[12..])
  {
    AddressRange();
    LastBytes(w, 32, 20);
    LowBytes(ToAddress(w), w / 0x1_0000_0000_0000_0000_0000_0000_0000_0000_0000_0000, 20);
    BytesRoundTrip(ToAddress(w), 20);
  }

  /** The state changes a gas function may make. */
  ghost predicate Metering(d: Db, e: Db) {
    && e == d.(world := d.world.(refund := e.world.refund, accAddresses := e.world.accAddresses,
                                 accSlots := e.world.accSlots))
    && d.world.accAddresses <= e.world.accAddresses && d.world.accSlots <= e.world.accSlots
  }

  /** The world once a gas function has run without an error: the accounts and slots it looked at are warm, and the
      refund counter has moved. */
  ghost function Warmed(fork: Fork, w: World, self: Address, stack: seq<Word>, dynamic: Dynamic): (x: World)
    requires dynamic.Depth() <= |stack|
  {
    match dynamic
    case SloadCold =>
      if (self, Back(stack, 0)) in w.accSlots then w
      else w.(accAddresses := w.accAddresses + {self}, accSlots := w.accSlots + {(self, Back(stack, 0))})
    case AccountCheck => w.(accAddresses := w.accAddresses + {ToAddress(Back(stack, 0))})
    case ExtCodeCopyCold => w.(accAddresses := w.accAddresses + {ToAddress(Back(stack, 0))})
    case CallGas(_, cold) => if cold then w.(accAddresses := w.accAddresses + {ToAddress(Back(stack, 1))}) else w
    case SelfdestructLegacy => w.(refund := w.refund + if self in w.vis.suicided then 0 else 24_000)
    case SelfdestructCold(refunds) =>
      w.(accAddresses := w.accAddresses + {ToAddress(Back(stack, 0))},
         refund := w.refund + if !refunds || self in w.vis.suicided then 0 else 24_000)
    case SstoreLegacy => StoreMetered(fork, w, (self, Back(stack, 0)), Back(stack, 1), dynamic)
    case SstoreEip2200 => StoreMetered(fork, w, (self, Back(stack, 0)), Back(stack, 1), dynamic)
    case SstoreCold(_) => StoreMetered(fork, w, (self, Back(stack, 0)), Back(stack, 1), dynamic)
    case _ => w
  }

  ghost function StoreMetered(fork: Fork, w: World, key: Key, value: Word, dynamic: Dynamic): (x: World)
    requires dynamic.IsSstore()
  {
    var refund := w.refund + StoreRefund(fork, dynamic, w, key, value);
    w.(refund := if refund < 0 then 0 else refund,
       accSlots := if dynamic.SstoreCold? then w.accSlots + {key} else w.accSlots)
  }

  // ---- memory

  /** Bytes in words of 32, rounded up. */
  function Words(n: nat): (w: nat) {
    (n + 31) / 32
  }

  lemma WordsExact(n: U64)
    ensures ToWordSize(n) == Words(n)
  {
  }

  /** memoryCopierGas, gasKeccak256, gasCreate2: expansion plus a price per word of the operand at pos. */
  method WordGas(f: Frame, size: U64, pos: nat, perWord: U64) returns (r: Option<U64>)
    requires f.mem.Settled() && pos < |f.stack|
    modifies f.mem`lastGasCost
    ensures r.Some? ==> f.mem.Charged(size)
    ensures r.Some? ==>
      Back(f.stack, pos) < TWO_64 && r.value == Expansion(|f.mem.store|, size) + perWord * Words(Back(f.stack, pos))
    ensures r == None ==>
      || size > MAX_SIZE || Back(f.stack, pos) >= TWO_64
      || Expansion(|f.mem.store|, size) + perWord * Words(Back(f.stack, pos)) >= TWO_64
  {
    hide Expansion, Fee, ToWordSize, Grown, Words;
    var gas := f.mem.GasCost(size);
    if gas == None {
      return None;
    }
    var n := Back(f.stack, pos);
    if n >= TWO_64 {
      return None;
    }
    assert ToWordSize(n) == Words(n) by {
      WordsExact(n);
    }
    var words := SafeMul(ToWordSize(n), perWord);
    if words == None {
      return None;
    }
    return SafeAdd(gas.value, words.value);
  }

  /** gasCreateEip3860, gasCreate2Eip3860 */
  method InitCodeGas(f: Frame, size: U64, perWord: U64) returns (r: Option<U64>)
    requires f.mem.Settled() && 3 <= |f.stack| && perWord <= 8
    modifies f.mem`lastGasCost
    ensures r.Some? ==> f.mem.Charged(size)
    ensures r.Some? <==> size <= MAX_SIZE && Back(f.stack, 2) <= 49_152
    ensures r.Some? ==> r.value == Expansion(|f.mem.store|, size) + perWord * Words(Back(f.stack, 2))
  {
    var gas := f.mem.GasCost(size);
    if gas == None {
      return None;
    }
    var n := Back(f.stack, 2);
    if n > MAX_INIT_CODE {
      return None;
    }
    ExpansionFits(|f.mem.store|, size);
    ProductAtMost(perWord, (n + 31) / 32, 8, MAX_INIT_CODE);
    var moreGas: U64 := perWord * ((n + 31) / 32);
    return SafeAdd(gas.value, moreGas);
  }

  /** makeGasLog */
  method LogGas(f: Frame, size: U64, topics: nat) returns (r: Option<U64>)
    requires f.mem.Settled() && 2 <= |f.stack| && topics <= 4
    modifies f.mem`lastGasCost
    ensures r.Some? ==> f.mem.Charged(size)
    ensures r.Some? ==>
      r.value == Expansion(|f.mem.store|, size) + 375 + topics * 375 + 8 * Back(f.stack, 1)
    ensures r == None ==>
      || size > MAX_SIZE
      || Expansion(|f.mem.store|, size) + 375 + topics * 375 + 8 * Back(f.stack, 1) >= TWO_64
  {
    var requested := Back(f.stack, 1);
    if requested >= TWO_64 {
      return None;
    }
    var gas := f.mem.GasCost(size);
    if gas == None {
      return None;
    }
    ExpansionFits(|f.mem.store|, size);
    gas := SafeAdd(gas.value, 375);
    gas := SafeAdd(gas.value, topics * 375);
    var dataGas := SafeMul(requested, 8);
    if dataGas == None {
      return None;
    }
    return SafeAdd(gas.value, dataGas.value);
  }

  /** Bytes needed for a word. */
  function ByteLen(w: nat): (n: nat) {
    if w == 0 then 0 else 1 + ByteLen(w / 256)
  }

  lemma {:induction false} ByteLenFits(w: nat, n: nat)
    ensures ByteLen(w) <= n <==> w < Pow256(n)
  {
    PowPositive(n);
    if w > 0 && n > 0 {
      ByteLenFits(w / 256, n - 1);
    }
  }

  /** gasExpFrontier, gasExpEIP158 */
  method ExpGas(f: Frame, perByte: U64) returns (r: Option<U64>)
    requires 2 <= |f.stack| && perByte <= 50
    ensures r == Some(10 + perByte * ByteLen(Back(f.stack, 1)))
  {
    WordRange();
    ByteLenFits(Back(f.stack, 1), 32);
    ProductAtMost(ByteLen(Back(f.stack, 1)), perByte, 32, 50);
    var gas: U64 := ByteLen(Back(f.stack, 1)) * perByte;
    return SafeAdd(gas, 10);
  }

  // ---- access list

  /** gasSLoadEIP2929 */
  method SloadGas(evm: EVM, f: Frame) returns (r: Option<U64>)
    requires 1 <= |f.stack|
    modifies evm`db
    ensures Metering(old(evm.db), evm.db) && evm.db.world.refund == old(evm.db.world.refund)
    ensures evm.db.world == Warmed(evm.fork, old(evm.db.world), f.address, f.stack, SloadCold)
    ensures r == Some(if (f.address, Back(f.stack, 0)) in old(evm.db.world.accSlots) then 100 else 2_100)
  {
    var slot := Back(f.stack, 0);
    if (f.address, slot) !in evm.db.world.accSlots {
      evm.db := evm.db.(world := evm.db.world.AddSlot(f.address, slot));
      return Some(COLD_SLOAD);
    }
    return Some(WARM_READ);
  }

  /** What the first touch of an account costs on top of a warm one. */
  ghost function ColdPrice(w: World, account: Word): (n: U64) {
    if ToAddress(account) in w.accAddresses then 0 else 2_500
  }

  /** gasEip2929AccountCheck */
  method AccountCheckGas(evm: EVM, f: Frame) returns (r: Option<U64>)
    requires 1 <= |f.stack|
    modifies evm`db
    ensures Metering(old(evm.db), evm.db) && evm.db.world.refund == old(evm.db.world.refund)
    ensures evm.db.world == Warmed(evm.fork, old(evm.db.world), f.address, f.stack, AccountCheck)
    ensures r == Some(ColdPrice(old(evm.db.world), Back(f.stack, 0)))
  {
    var addr := ToAddress(Back(f.stack, 0));
    if addr !in evm.db.world.accAddresses {
      evm.db := evm.db.(world := evm.db.world.AddAddress(addr));
      return Some(COLD_ACCOUNT - WARM_READ);
    }
    return Some(0);
  }

  /** gasExtCodeCopyEIP2929 */
  method ExtCodeCopyGas(evm: EVM, f: Frame, size: U64) returns (r: Option<U64>)
    requires f.mem.Settled() && 4 <= |f.stack|
    modifies evm`db, f.mem`lastGasCost
    ensures Metering(old(evm.db), evm.db) && evm.db.world.refund == old(evm.db.world.refund)
    ensures r.Some? ==> f.mem.Charged(size)
    ensures r.Some? ==> evm.db.world == Warmed(evm.fork, old(evm.db.world), f.address, f.stack, ExtCodeCopyCold)
    ensures r.Some? ==>
      && Back(f.stack, 3) < TWO_64
      && r.value == Expansion(|f.mem.store|, size) + 3 * Words(Back(f.stack, 3))
           + ColdPrice(old(evm.db.world), Back(f.stack, 0))
    ensures r == None ==>
      || size > MAX_SIZE || Back(f.stack, 3) >= TWO_64
      || Expansion(|f.mem.store|, size) + 3 * Words(Back(f.stack, 3)) + ColdPrice(old(evm.db.world), Back(f.stack, 0))
           >= TWO_64
  {
    hide Expansion, Words;
    r := WordGas(f, size, 3, 3);
    if r == None {
      return None;
    }
    var addr := ToAddress(Back(f.stack, 0));
    if addr !in evm.db.world.accAddresses {
      evm.db := evm.db.(world := evm.db.world.AddAddress(addr));
      r := SafeAdd(r.value, COLD_ACCOUNT - WARM_READ);
    }
  }

  /** The heir of a self-destruct is a new account; since EIP-158 only if it receives something. */
  ghost predicate MakesHeir(fork: Fork, dynamic: Dynamic, w: World, from: Address, heir: Address) {
    if dynamic.SelfdestructCold? || fork.AtLeast(SpuriousDragon) then Dead(w, heir) && w.Balance(from) != 0
    else fork.AtLeast(TangerineWhistle) && heir !in w.exist
  }

  /** gasSelfdestruct and makeSelfdestructGasFn */
  method SelfdestructGas(evm: EVM, f: Frame, dynamic: Dynamic) returns (r: Option<U64>)
    requires 1 <= |f.stack| && (dynamic.SelfdestructLegacy? || dynamic.SelfdestructCold?)
    modifies evm`db
    ensures Metering(old(evm.db), evm.db)
    ensures var w, heir := old(evm.db.world), ToAddress(Back(f.stack, 0));
      && r == Some((if dynamic.SelfdestructLegacy? then if evm.fork.AtLeast(TangerineWhistle) then 5_000 else 0
                    else if heir in w.accAddresses then 0 else 2_600)
                   + if MakesHeir(evm.fork, dynamic, w, f.address, heir) then 25_000 else 0)
      && evm.db.world == Warmed(evm.fork, w, f.address, f.stack, dynamic)
  {
    var w := evm.db.world;
    var addr := ToAddress(Back(f.stack, 0));
    var gas: U64 := 0;
    if dynamic.SelfdestructLegacy? {
      if evm.fork.AtLeast(TangerineWhistle) {
        gas := 5_000;
        if evm.fork.AtLeast(SpuriousDragon) {
          if w.Empty(addr) && w.Balance(f.address) != 0 {
            gas := gas + 25_000;
          }
        } else if !w.Exist(addr) {
          gas := gas + 25_000;
        }
      }
      if f.address !in w.vis.suicided {
        evm.db := evm.db.(world := w.AddRefund(24_000));
      }
    } else {
      if addr !in w.accAddresses {
        evm.db := evm.db.(world := w.AddAddress(addr));
        gas := COLD_ACCOUNT;
      }
      if w.Empty(addr) && w.Balance(f.address) != 0 {
        gas := gas + 25_000;
      }
      if dynamic.refunds && f.address !in w.vis.suicided {
        evm.db := evm.db.(world := evm.db.world.AddRefund(24_000));
      }
    }
    return Some(gas);
  }

  // ---- SSTORE

  /** The rule set a store is priced by; None is the pricing before net metering. */
  function ScheduleOf(fork: Fork, dynamic: Dynamic): (p: Option<Schedule>)
    requires dynamic.IsSstore()
    ensures p.Some? ==> p.value.Valid()
    ensures dynamic == SstoreCold(4_800) ==> p == Some(EIP3529)
  {
    match dynamic
    case SstoreEip2200 => Some(EIP2200)
    case SstoreCold(clear) => Some(EIP2929.(clearRefund := clear))
    case _ => if fork.AtLeast(Petersburg) || !fork.AtLeast(Constantinople) then None else Some(EIP1283)
  }

  /** EIP-2200: the first change of a slot in a transaction costs init or clean, every other store a read. */
  ghost function NetGas(read: nat, init: nat, clean: nat, original: Word, current: Word, value: Word): (n: nat) {
    if current == original && original != value then if original == 0 then init else clean else read
  }

  /** EIP-2200: the counter rises by clear when a slot that began non-zero is cleared, falls by as much when that is
      undone, and restoring the original value gives back what the first change cost beyond a read. */
  ghost function NetRefund(read: nat, init: nat, clean: nat, clear: nat, original: Word, current: Word, value: Word)
    : (n: int)
  {
    if current == value then 0
    else
      (if original != 0 && value == 0 then clear else 0) - (if original != 0 && current == 0 then clear else 0)
      + (if original == value then (if original == 0 then init else clean) - read else 0)
  }

  /** What a store costs, by the figures of the rule set; before net metering only making a slot is dear. */
  ghost function StoreCost(fork: Fork, dynamic: Dynamic, w: World, key: Key, value: Word): (n: nat)
    requires dynamic.IsSstore()
  {
    var original, current := At(w.committed, key), At(w.vis.storage, key);
    match dynamic
    case SstoreCold(_) =>
      NetGas(100, 20_000, 2_900, original, current, value) + if key in w.accSlots then 0 else 2_100
    case SstoreEip2200 => NetGas(800, 20_000, 5_000, original, current, value)
    case _ =>
      if fork == Constantinople then NetGas(200, 20_000, 5_000, original, current, value)
      else if current == 0 && value != 0 then 20_000 else 5_000
  }

  /** How a store moves the refund counter. */
  ghost function StoreRefund(fork: Fork, dynamic: Dynamic, w: World, key: Key, value: Word): (n: int)
    requires dynamic.IsSstore()
  {
    var original, current := At(w.committed, key), At(w.vis.storage, key);
    match dynamic
    case SstoreCold(clear) => NetRefund(100, 20_000, 2_900, clear, original, current, value)
    case SstoreEip2200 => NetRefund(800, 20_000, 5_000, 15_000, original, current, value)
    case _ =>
      if fork == Constantinople then NetRefund(200, 20_000, 5_000, 15_000, original, current, value)
      else if current != 0 && value == 0 then 15_000 else 0
  }

  /** The clauses of the three rule sets come to these two. */
  lemma NetChargeIs(p: Schedule, original: Word, current: Word, value: Word)
    requires p.Valid()
    ensures var c := NetCharge(p, original, current, value);
      && c.gas == NetGas(p.read, p.init, p.clean, original, current, value)
      && c.addRefund - c.subRefund == NetRefund(p.read, p.init, p.clean, p.clearRefund, original, current, value)
  {
  }

  lemma ScheduleFigures(fork: Fork, dynamic: Dynamic, w: World, key: Key, value: Word)
    requires dynamic.IsSstore()
    ensures ScheduleOf(fork, dynamic) == None <==> dynamic.SstoreLegacy? && fork != Constantinople
    ensures StoreCost(fork, dynamic, w, key, value) > 0
    ensures ScheduleOf(fork, dynamic).Some? ==>
      var p := ScheduleOf(fork, dynamic).value;
      var c := NetCharge(p, At(w.committed, key), At(w.vis.storage, key), value);
      && StoreCost(fork, dynamic, w, key, value)
           == c.gas + (if dynamic.SstoreCold? && key !in w.accSlots then 2_100 else 0)
      && StoreRefund(fork, dynamic, w, key, value) == c.addRefund - c.subRefund
  {
    hide At;
  }

  /** The clauses (1) to (2.2.2.2), with the counter moved on the way. */
  method NetSstoreGas(evm: EVM, p: Schedule, original: Word, current: Word, value: Word) returns (gas: nat)
    requires p.Valid()
    requires NetCharge(p, original, current, value).subRefund <= evm.db.world.refund
    modifies evm`db
    ensures gas == NetGas(p.read, p.init, p.clean, original, current, value)
    ensures var w := old(evm.db.world);
      && evm.db == old(evm.db).(world := w.(refund := evm.db.world.refund))
      && evm.db.world.refund
           == w.refund + NetRefund(p.read, p.init, p.clean, p.clearRefund, original, current, value)
  {
    if current == value {
      return p.read;
    }
    if original == current {
      if original == 0 {
        return p.init;
      }
      if value == 0 {
        evm.db := evm.db.(world := evm.db.world.AddRefund(p.clearRefund));
      }
      return p.clean;
    }
    if original != 0 {
      if current == 0 {
        evm.db := evm.db.(world := evm.db.world.SubRefund(p.clearRefund));
      } else if value == 0 {
        evm.db := evm.db.(world := evm.db.world.AddRefund(p.clearRefund));
      }
    }
    if original == value {
      if original == 0 {
        evm.db := evm.db.(world := evm.db.world.AddRefund(p.init - p.read));
      } else {
        evm.db := evm.db.(world := evm.db.world.AddRefund(p.clean - p.read));
      }
    }
    return p.read;
  }

  /** gasSStore, gasSStoreEIP2200 and makeGasSStoreFunc.  A returned cost comes with a refund counter that covers
      the slots cleared once the store has happened. */
  method SstoreGas(evm: EVM, f: Frame, dynamic: Dynamic) returns (r: Option<U64>)
    requires dynamic.IsSstore() && 2 <= |f.stack|
    requires Bounded(evm.fork, evm.db.world)
    requires if dynamic.SstoreCold? then dynamic.clearRefund == ClearRefund(evm.fork) else !evm.fork.AtLeast(London)
    // the panic "impossible case: address was not present in access list during sstore op"
    requires dynamic.SstoreCold? ==> f.address in evm.db.world.accAddresses
    modifies evm`db
    ensures Metering(old(evm.db), evm.db)
    ensures r.Some? ==> Bounded(evm.fork, evm.db.world.SetState(f.address, Back(f.stack, 0), Back(f.stack, 1)))
    ensures r.Some? ==> r.value > 0
    ensures r == None <==> !dynamic.SstoreLegacy? && f.gas <= 2_300
    ensures r.Some? ==>
      var key, w := (f.address, Back(f.stack, 0)), old(evm.db.world);
      && r.value == StoreCost(evm.fork, dynamic, w, key, Back(f.stack, 1))
      && w.refund + StoreRefund(evm.fork, dynamic, w, key, Back(f.stack, 1)) >= 0
      && evm.db.world == StoreMetered(evm.fork, w, key, Back(f.stack, 1), dynamic)
  {
    hide RefundBound, Put, Get, NetCharge, NetGas, NetRefund;
    if !dynamic.SstoreLegacy? && f.gas <= 2_300 {
      return None;
    }
    var key := (f.address, Back(f.stack, 0));
    var value := Back(f.stack, 1);
    var cost: U64 := 0;
    if dynamic.SstoreCold? && key !in evm.db.world.accSlots {
      cost := COLD_SLOAD;
      evm.db := evm.db.(world := evm.db.world.AddSlot(key.0, key.1));
    }
    var p := ScheduleOf(evm.fork, dynamic);
    ScheduleFigures(evm.fork, dynamic, old(evm.db.world), key, value);
    if p == None {
      r := LegacySstoreGas(evm, key, value);
      return;
    }
    var gas := ScheduledGas(evm, p.value, key, value);
    return Some(cost + gas);
  }

  /** The net-metered part. */
  method ScheduledGas(evm: EVM, p: Schedule, key: Key, value: Word) returns (gas: nat)
    requires p.Valid() && p.clearRefund == ClearRefund(evm.fork) && 0 < p.read && p.init <= 20_000 && p.clean <= 5_000
    requires Bounded(evm.fork, evm.db.world)
    modifies evm`db
    ensures var w := old(evm.db.world);
      var original, current := At(w.committed, key), At(w.vis.storage, key);
      && gas == NetGas(p.read, p.init, p.clean, original, current, value)
      && evm.db == old(evm.db).(world := w.(refund := evm.db.world.refund))
      && evm.db.world.refund
           == w.refund + NetRefund(p.read, p.init, p.clean, p.clearRefund, original, current, value)
    ensures Bounded(evm.fork, evm.db.world.SetState(key.0, key.1, value))
    ensures 0 < gas <= 20_000
  {
    hide RefundBound, Put, Get;
    var w := evm.db.world;
    StoreKeepsRefundBound(p, w.committed, w.vis.storage, key, value, w.refund);
    gas := NetSstoreGas(evm, p, At(w.committed, key), At(w.vis.storage, key), value);
    NetChargeIs(p, At(w.committed, key), At(w.vis.storage, key), value);
  }

  /** The three scenarios of the pricing before net metering. */
  method LegacySstoreGas(evm: EVM, key: Key, value: Word) returns (r: Option<U64>)
    requires Bounded(evm.fork, evm.db.world) && ClearRefund(evm.fork) == 15_000
    modifies evm`db
    ensures Bounded(evm.fork, evm.db.world.SetState(key.0, key.1, value))
    ensures var w, current := old(evm.db.world), At(old(evm.db.world.vis.storage), key);
      && r == Some(if current == 0 && value != 0 then 20_000 else 5_000)
      && evm.db == old(evm.db).(world :=
           w.(refund := w.refund + if current != 0 && value == 0 then 15_000 else 0))
  {
    hide RefundBound, Put, Get;
    var w := evm.db.world;
    var current := At(w.vis.storage, key);
    LegacyKeepsBound(w, key, value);
    if current == 0 && value != 0 {
      return Some(20_000);
    }
    if current != 0 && value == 0 {
      evm.db := evm.db.(world := w.AddRefund(15_000));
      return Some(5_000);
    }
    return Some(5_000);
  }

  /** Before net metering clearing a slot pays 15000 whatever it held first, and nothing is ever taken back. */
  lemma LegacyKeepsBound(w: World, key: Key, value: Word)
    requires RefundBound(15_000, w.committed, w.vis.storage, w.refund)
    ensures RefundBound(15_000, w.committed, Put(w.vis.storage, key.0, key.1, value),
                        w.refund + if At(w.vis.storage, key) != 0 && value == 0 then 15_000 else 0)
  {
    hide Cleared, Put;
    ClearedAfterPut(w.committed, w.vis.storage, key, value);
    CountPlus(15_000, Cleared(w.committed, w.vis.storage), key);
    CountMinus(15_000, Cleared(w.committed, w.vis.storage), key);
  }

  // ---- calls

  predicate TransfersValue(kind: CallKind, stack: seq<Word>)
    requires 3 <= |stack|
  {
    (kind.Call? || kind.CallCode?) && Back(stack, 2) != 0
  }

  /** What a call costs before any gas is handed down: a new account, a transfer, the memory it needs. */
  ghost function CallBase(fork: Fork, w: World, kind: CallKind, stack: seq<Word>, expansion: nat): (n: nat)
    requires 3 <= |stack|
  {
    var transfers := (kind.Call? || kind.CallCode?) && Back(stack, 2) != 0;
    var newAccount :=
      kind.Call? && if fork.AtLeast(SpuriousDragon)
                    then transfers && Dead(w, ToAddress(Back(stack, 1)))
                    else ToAddress(Back(stack, 1)) !in w.exist;
    (if newAccount then 25_000 else 0) + (if transfers then 9_000 else 0) + expansion
  }

  /** EIP-161: no balance, no nonce, no code. */
  ghost predicate Dead(w: World, a: Address) {
    w.Balance(a) == 0 && w.Nonce(a) == 0 && w.Code(a) == []
  }

  /** A call can be paid for: since EIP-150 exactly when its base price can, before that with all it asks for. */
  ghost predicate CallPayable(fork: Fork, base: nat, requested: Word, gas: nat) {
    if fork.AtLeast(TangerineWhistle) then base <= gas else requested < TWO_64 && base + requested <= gas
  }

  /** The gas a call hands down: what it asks for, since EIP-150 at most all but one 64th of what the base leaves. */
  ghost function HandedDown(fork: Fork, gas: nat, base: nat, requested: Word): (n: nat) {
    if fork.AtLeast(TangerineWhistle) then
      var left := if base <= gas then gas - base else 0;
      if requested < left - left / 64 then requested else left - left / 64
    else requested
  }

  lemma CallBaseAdds(fork: Fork, w: World, kind: CallKind, stack: seq<Word>, expansion: nat)
    requires 3 <= |stack|
    ensures CallBase(fork, w, kind, stack, expansion) == CallBase(fork, w, kind, stack, 0) + expansion
  {
  }

  /** The price of a new account and of a transfer. */
  method CallSurcharge(evm: EVM, f: Frame, kind: CallKind) returns (gas: U64)
    requires 3 <= |f.stack|
    ensures gas == CallBase(evm.fork, evm.db.world, kind, f.stack, 0) <= 34_000
  {
    var w, addr := evm.db.world, ToAddress(Back(f.stack, 1));
    gas := 0;
    if kind.Call? {
      if evm.fork.AtLeast(SpuriousDragon) {
        if TransfersValue(kind, f.stack) && w.Empty(addr) {
          gas := gas + 25_000;
        }
      } else if !w.Exist(addr) {
        gas := gas + 25_000;
      }
    }
    if TransfersValue(kind, f.stack) {
      gas := gas + CALL_VALUE_TRANSFER_GAS;
    }
  }

  /** gasCall, gasCallCode, gasDelegateCall, gasStaticCall */
  method PlainCallGas(evm: EVM, f: Frame, kind: CallKind, size: U64) returns (r: Option<U64>)
    requires f.mem.Settled() && 3 <= |f.stack|
    modifies evm`callGasTemp, f.mem`lastGasCost
    ensures r.Some? ==> f.mem.Charged(size)
    ensures r.Some? ==>
      var base := CallBase(evm.fork, evm.db.world, kind, f.stack, Expansion(|f.mem.store|, size));
      && base <= 0x100_0000_0000_0000
      && r.value == base + evm.callGasTemp
      && Some(evm.callGasTemp) == Eip150.CallGas(evm.fork.AtLeast(TangerineWhistle), f.gas, base, Back(f.stack, 0))
    ensures r.Some? && r.value <= f.gas <==>
      && size <= MAX_SIZE
      && CallPayable(evm.fork, CallBase(evm.fork, evm.db.world, kind, f.stack, Expansion(|f.mem.store|, size)),
                     Back(f.stack, 0), f.gas)
  {
    hide Eip150.CallGas, Expansion, Fee, ToWordSize, Grown, CallBase;
    var gas := CallSurcharge(evm, f, kind);
    CallBaseAdds(evm.fork, evm.db.world, kind, f.stack, Expansion(|f.mem.store|, size));
    var memoryGas := f.mem.GasCost(size);
    if memoryGas == None {
      return None;
    }
    ExpansionFits(|f.mem.store|, size);
    var sum := SafeAdd(gas, memoryGas.value);
    var child := Eip150.CallGas(evm.fork.AtLeast(TangerineWhistle), f.gas, sum.value, Back(f.stack, 0));
    if child == None {
      return None;
    }
    evm.callGasTemp := child.value;
    return SafeAdd(sum.value, child.value);
  }

  /** makeCallVariantGasCallEIP2929: the cold charge is taken before the 63/64 rule is applied, put back exactly,
      and returned as part of the cost; the unchecked sum never wraps. */
  method ColdCallGas(evm: EVM, f: Frame, kind: CallKind, size: U64) returns (r: Option<U64>)
    requires f.mem.Settled() && 3 <= |f.stack| && evm.fork.AtLeast(Berlin)
    modifies evm`db, evm`callGasTemp, f`gas, f.mem`lastGasCost
    ensures Metering(old(evm.db), evm.db) && evm.db.world.refund == old(evm.db.world.refund)
    ensures evm.db.world == old(evm.db.world).(accAddresses :=
      old(evm.db.world.accAddresses) + {ToAddress(Back(f.stack, 1))})
    ensures f.gas <= old(f.gas) && (r.Some? ==> f.gas == old(f.gas))
    ensures r.Some? ==> f.mem.Charged(size)
    ensures r.Some? ==>
      var base := CallBase(evm.fork, evm.db.world, kind, f.stack, Expansion(|f.mem.store|, size));
      var cold := ColdPrice(old(evm.db.world), Back(f.stack, 1));
      && r.value == base + cold + evm.callGasTemp
      && (r.value <= f.gas ==>
            evm.callGasTemp == HandedDown(evm.fork, f.gas, base + cold, Back(f.stack, 0)))
    ensures r.Some? && r.value <= f.gas <==>
      && size <= MAX_SIZE
      && CallBase(evm.fork, evm.db.world, kind, f.stack, Expansion(|f.mem.store|, size))
           + ColdPrice(old(evm.db.world), Back(f.stack, 1)) <= old(f.gas)
  {
    hide Expansion, CallBase;
    var addr := ToAddress(Back(f.stack, 1));
    var warmAccess := addr in evm.db.world.accAddresses;
    var coldCost: U64 := COLD_ACCOUNT - WARM_READ;
    if !warmAccess {
      evm.db := evm.db.(world := evm.db.world.AddAddress(addr));
      var ok := f.UseGas(coldCost);
      if !ok {
        return None;
      }
    }
    r := PlainCallGas(evm, f, kind, size);
    if warmAccess || r == None {
      return;
    }
    Eip150.ColdChargeFits(f.gas, CallBase(evm.fork, evm.db.world, kind, f.stack, Expansion(|f.mem.store|, size)),
                          Back(f.stack, 0), coldCost);
    f.gas := f.gas + coldCost;
    return Some(r.value + coldCost);
  }

  // ---- the gas function of a table entry

  /** The entry belongs to the fork: see Table. */
  predicate FitsFork(fork: Fork, o: Operation) {
    && (o.dynamic.IsSstore() ==>
          if fork.AtLeast(Berlin) then o.dynamic.SstoreCold? && o.dynamic.clearRefund == ClearRefund(fork)
          else !o.dynamic.SstoreCold?)
    && (o.dynamic.CallGas? ==> (o.dynamic.cold <==> fork.AtLeast(Berlin)))
  }

  lemma TableFitsFork(fork: Fork, op: Byte)
    ensures FitsFork(fork, Table(fork, op))
  {
    hide FrontierTable, HomesteadTable, TangerineTable, SpuriousTable, ByzantiumTable, ConstantinopleTable,
      IstanbulTable, BerlinTable, LondonTable, ShanghaiTable, CancunTable;
  }

  /** The state once the instruction has run: only a store changes it beyond metering. */
  function AfterStore(w: World, o: Operation, a: Address, stack: seq<Word>): (x: World)
    requires o.exec.Pops() <= |stack|
  {
    if o.exec.OpSstore? then w.SetState(a, Back(stack, 0), Back(stack, 1)) else w
  }

  /** What the gas function of an entry charges, in the state it finds; handedDown is the gas a call passes on. */
  ghost function Price(fork: Fork, w: World, self: Address, stack: seq<Word>, bytes: nat, size: U64, dynamic: Dynamic,
                 handedDown: nat): (n: nat)
    requires dynamic.Depth() <= |stack|
  {
    match dynamic
    case NoDynamic => 0
    case MemoryOnly => Expansion(bytes, size)
    case MemoryPlusWords(pos, perWord) => Expansion(bytes, size) + perWord * Words(Back(stack, pos))
    case InitCode(perWord) => Expansion(bytes, size) + perWord * Words(Back(stack, 2))
    case ExpGas(perByte) => 10 + perByte * ByteLen(Back(stack, 1))
    case LogGas(topics) => Expansion(bytes, size) + 375 + topics * 375 + 8 * Back(stack, 1)
    case ExtCodeCopyCold => Expansion(bytes, size) + 3 * Words(Back(stack, 3)) + ColdPrice(w, Back(stack, 0))
    case AccountCheck => ColdPrice(w, Back(stack, 0))
    case SloadCold => if (self, Back(stack, 0)) in w.accSlots then 100 else 2_100
    case SstoreLegacy => StoreCost(fork, dynamic, w, (self, Back(stack, 0)), Back(stack, 1))
    case SstoreEip2200 => StoreCost(fork, dynamic, w, (self, Back(stack, 0)), Back(stack, 1))
    case SstoreCold(_) => StoreCost(fork, dynamic, w, (self, Back(stack, 0)), Back(stack, 1))
    case CallGas(kind, cold) =>
      CallBase(fork, w, kind, stack, Expansion(bytes, size)) + (if cold then ColdPrice(w, Back(stack, 1)) else 0)
      + handedDown
    case SelfdestructLegacy =>
      (if fork.AtLeast(TangerineWhistle) then 5_000 else 0)
      + if MakesHeir(fork, dynamic, w, self, ToAddress(Back(stack, 0))) then 25_000 else 0
    case SelfdestructCold(_) =>
      (if ToAddress(Back(stack, 0)) in w.accAddresses then 0 else 2_600)
      + if MakesHeir(fork, dynamic, w, self, ToAddress(Back(stack, 0))) then 25_000 else 0
    case JournalGas => 800
  }

  /** The gas function succeeds and its price is at most the gas: memory within the limit, operands in range, the
      EIP-2200 sentry passed, and enough gas. */
  ghost predicate Payable(fork: Fork, w: World, self: Address, stack: seq<Word>, bytes: nat, size: U64,
                          dynamic: Dynamic, gas: nat)
    requires dynamic.Depth() <= |stack|
  {
    && size <= MAX_SIZE
    && (dynamic.MemoryPlusWords? ==> Back(stack, dynamic.pos) < TWO_64)
    && (dynamic.ExtCodeCopyCold? ==> Back(stack, 3) < TWO_64)
    && (dynamic.InitCode? ==> Back(stack, 2) <= 49_152)
    && (dynamic.SstoreEip2200? || dynamic.SstoreCold? ==> gas > 2_300)
    && var price := Price(fork, w, self, stack, bytes, size, dynamic, 0);
       if dynamic.CallGas? then CallPayable(fork, price, Back(stack, 0), gas) else price <= gas
  }

  method DynamicGas(evm: EVM, f: Frame, o: Operation, size: U64) returns (r: Option<U64>)
    requires Sound(o) && FitsFork(evm.fork, o) && o.minStack <= |f.stack| && f.mem.Settled()
    requires o.dynamic.PaysMemory() || size == 0
    requires Bounded(evm.fork, evm.db.world)
    requires evm.fork.AtLeast(Berlin) ==> f.address in evm.db.world.accAddresses
    modifies evm`db, evm`callGasTemp, f`gas, f.mem`lastGasCost
    ensures Metering(old(evm.db), evm.db)
    ensures f.gas <= old(f.gas) && (r.Some? ==> f.gas == old(f.gas) && f.mem.Charged(size))
    ensures r.Some? ==> Bounded(evm.fork, AfterStore(evm.db.world, o, f.address, f.stack))
    ensures r.Some? ==>
      r.value == Price(evm.fork, old(evm.db.world), f.address, f.stack, |f.mem.store|, size, o.dynamic, evm.callGasTemp)
    ensures r.Some? && o.dynamic.AlwaysCharges() ==> r.value > 0
    ensures r.Some? && o.dynamic.CallGas? ==>
      && evm.callGasTemp + (if TransfersValue(o.dynamic.kind, f.stack) then CALL_VALUE_TRANSFER_GAS else 0) <= r.value
      && (r.value <= f.gas ==>
            var base := Price(evm.fork, old(evm.db.world), f.address, f.stack, |f.mem.store|, size, o.dynamic, 0);
            evm.callGasTemp == HandedDown(evm.fork, f.gas, base, Back(f.stack, 0)))
    ensures r.Some? ==> evm.db.world == Warmed(evm.fork, old(evm.db.world), f.address, f.stack, o.dynamic)
    ensures r.Some? && r.value <= f.gas <==>
      Payable(evm.fork, old(evm.db.world), f.address, f.stack, |f.mem.store|, size, o.dynamic, old(f.gas))
  {
    hide RefundBound, Fee, NetCharge, Sound, CallBase, Expansion, StoreCost, StoreMetered, Words, ByteLen, HandedDown;
    assert o.dynamic.Modest() && o.dynamic.Depth() <= |f.stack|
        && (o.exec.OpSstore? <==> o.dynamic.IsSstore()) && (o.dynamic.CallGas? ==> 3 <= |f.stack|) by {
      SoundEntry(o);
    }
    if o.dynamic.IsSstore() {
      r := SstoreGas(evm, f, o.dynamic);
      return;
    }
    if o.dynamic.CallGas? {
      r := CallGas(evm, f, o.dynamic, size);
      BoundedAfterMetering(evm.fork, old(evm.db), evm.db);
      return;
    }
    if o.dynamic.ExtCodeCopyCold? || o.dynamic.AccountCheck? || o.dynamic.SloadCold?
           || o.dynamic.SelfdestructLegacy? || o.dynamic.SelfdestructCold? {
      r := AccessGas(evm, f, o.dynamic, size);
    } else {
      r := LocalGas(evm.fork, evm.db.world, f, o.dynamic, size);
    }
    HandsDownNothing(evm.fork, old(evm.db.world), f.address, f.stack, |f.mem.store|, size, o.dynamic, evm.callGasTemp);
    BoundedAfterMetering(evm.fork, old(evm.db), evm.db);
  }

  /** The gas function of a call. */
  method CallGas(evm: EVM, f: Frame, dynamic: Dynamic, size: U64) returns (r: Option<U64>)
    requires dynamic.CallGas? && (dynamic.cold <==> evm.fork.AtLeast(Berlin)) && 3 <= |f.stack| && f.mem.Settled()
    modifies evm`db, evm`callGasTemp, f`gas, f.mem`lastGasCost
    ensures Metering(old(evm.db), evm.db) && evm.db.world.refund == old(evm.db.world.refund)
    ensures f.gas <= old(f.gas) && (r.Some? ==> f.gas == old(f.gas) && f.mem.Charged(size))
    ensures r.Some? ==>
      && r.value
           == Price(evm.fork, old(evm.db.world), f.address, f.stack, |f.mem.store|, size, dynamic, evm.callGasTemp)
      && evm.callGasTemp + (if TransfersValue(dynamic.kind, f.stack) then CALL_VALUE_TRANSFER_GAS else 0) <= r.value
      && evm.db.world == Warmed(evm.fork, old(evm.db.world), f.address, f.stack, dynamic)
    ensures r.Some? && r.value <= f.gas ==>
      var base := Price(evm.fork, old(evm.db.world), f.address, f.stack, |f.mem.store|, size, dynamic, 0);
      evm.callGasTemp == HandedDown(evm.fork, f.gas, base, Back(f.stack, 0))
    ensures r.Some? && r.value <= f.gas <==>
      Payable(evm.fork, old(evm.db.world), f.address, f.stack, |f.mem.store|, size, dynamic, old(f.gas))
  {
    hide Fee, CallBase, Expansion;
    if dynamic.cold {
      r := ColdCallGas(evm, f, dynamic.kind, size);
    } else {
      r := PlainCallGas(evm, f, dynamic.kind, size);
    }
    CallBaseMetered(evm.fork, old(evm.db), evm.db, dynamic.kind, f.stack, Expansion(|f.mem.store|, size));
    CallBaseCovers(evm.fork, evm.db.world, dynamic.kind, f.stack, Expansion(|f.mem.store|, size));
  }

  /** The gas functions that look at the access list. */
  method AccessGas(evm: EVM, f: Frame, dynamic: Dynamic, size: U64) returns (r: Option<U64>)
    requires dynamic.ExtCodeCopyCold? || dynamic.AccountCheck? || dynamic.SloadCold?
          || dynamic.SelfdestructLegacy? || dynamic.SelfdestructCold?
    requires dynamic.Depth() <= |f.stack| && f.mem.Settled() && (dynamic.PaysMemory() || size == 0)
    modifies evm`db, f.mem`lastGasCost
    ensures Metering(old(evm.db), evm.db) && evm.db.world.refund >= old(evm.db.world.refund)
    ensures r.Some? ==> f.mem.Charged(size)
    ensures r.Some? ==>
      && r.value == Price(evm.fork, old(evm.db.world), f.address, f.stack, |f.mem.store|, size, dynamic, 0)
      && evm.db.world == Warmed(evm.fork, old(evm.db.world), f.address, f.stack, dynamic)
    ensures r.Some? && r.value <= f.gas <==>
      Payable(evm.fork, old(evm.db.world), f.address, f.stack, |f.mem.store|, size, dynamic, f.gas)
    ensures r.Some? && dynamic.AlwaysCharges() ==> r.value > 0
  {
    hide Fee, Expansion;
    match dynamic {
      case ExtCodeCopyCold => r := ExtCodeCopyGas(evm, f, size);
      case AccountCheck => r := AccountCheckGas(evm, f);
      case SloadCold => r := SloadGas(evm, f);
      case SelfdestructLegacy => r := SelfdestructGas(evm, f, dynamic);
      case SelfdestructCold(_) => r := SelfdestructGas(evm, f, dynamic);
    }
  }

  /** The gas functions that look at the frame alone. */
  method LocalGas(ghost fork: Fork, ghost w: World, f: Frame, dynamic: Dynamic, size: U64) returns (r: Option<U64>)
    requires dynamic.NoDynamic? || dynamic.MemoryOnly? || dynamic.MemoryPlusWords? || dynamic.InitCode?
          || dynamic.ExpGas? || dynamic.LogGas? || dynamic.JournalGas?
    requires dynamic.Modest() && dynamic.Depth() <= |f.stack| && f.mem.Settled() && (dynamic.PaysMemory() || size == 0)
    modifies f.mem`lastGasCost
    ensures r.Some? ==> f.mem.Charged(size)
    ensures r.Some? ==> r.value == Price(fork, w, f.address, f.stack, |f.mem.store|, size, dynamic, 0)
    ensures r.Some? && r.value <= f.gas <==>
      Payable(fork, w, f.address, f.stack, |f.mem.store|, size, dynamic, f.gas)
    ensures r.Some? && dynamic.AlwaysCharges() ==> r.value > 0
  {
    if dynamic.NoDynamic? {
      return Some(0);
    } else if dynamic.ExpGas? {
      r := ExpGas(f, dynamic.perByte);
    } else if dynamic.JournalGas? {
      return Some(800);
    } else {
      r := ExpansionGas(fork, w, f, dynamic, size);
    }
  }

  /** Those that charge for memory. */
  method ExpansionGas(ghost fork: Fork, ghost w: World, f: Frame, dynamic: Dynamic, size: U64) returns (r: Option<U64>)
    requires dynamic.MemoryOnly? || dynamic.MemoryPlusWords? || dynamic.InitCode? || dynamic.LogGas?
    requires dynamic.Modest() && dynamic.Depth() <= |f.stack| && f.mem.Settled()
    modifies f.mem`lastGasCost
    ensures r.Some? ==> f.mem.Charged(size)
    ensures r.Some? ==> r.value == Price(fork, w, f.address, f.stack, |f.mem.store|, size, dynamic, 0)
    ensures r.Some? && r.value <= f.gas <==>
      Payable(fork, w, f.address, f.stack, |f.mem.store|, size, dynamic, f.gas)
    ensures r.Some? && dynamic.LogGas? ==> r.value > 0
  {
    hide Fee, Expansion, Words;
    if dynamic.MemoryOnly? {
      r := f.mem.GasCost(size);
    } else if dynamic.MemoryPlusWords? {
      r := WordGas(f, size, dynamic.pos, dynamic.perWord);
    } else if dynamic.InitCode? {
      r := InitCodeGas(f, size, dynamic.perWord);
    } else {
      r := LogGas(f, size, dynamic.topics);
    }
  }

  lemma BoundedAfterMetering(fork: Fork, d: Db, e: Db)
    requires Bounded(fork, d.world) && Metering(d, e) && e.world.refund >= d.world.refund
    ensures Bounded(fork, e.world)
  {
  }

  lemma HandsDownNothing(fork: Fork, w: World, self: Address, stack: seq<Word>, bytes: nat, size: U64, dynamic: Dynamic,
                         handedDown: nat)
    requires dynamic.Depth() <= |stack|
    ensures !dynamic.CallGas? ==>
      Price(fork, w, self, stack, bytes, size, dynamic, 0)
      == Price(fork, w, self, stack, bytes, size, dynamic, handedDown)
  {
  }

  /** Metering makes no account and moves no balance. */
  lemma CallBaseMetered(fork: Fork, d: Db, e: Db, kind: CallKind, stack: seq<Word>, expansion: nat)
    requires 3 <= |stack| && Metering(d, e)
    ensures CallBase(fork, d.world, kind, stack, expansion) == CallBase(fork, e.world, kind, stack, expansion)
  {
  }

  lemma CallBaseCovers(fork: Fork, w: World, kind: CallKind, stack: seq<Word>, expansion: nat)
    requires 3 <= |stack|
    ensures CallBase(fork, w, kind, stack, expansion)
      >= if TransfersValue(kind, stack) then CALL_VALUE_TRANSFER_GAS else 0
  {
  }

  /** Sound, in the parts the dispatcher needs. */
  lemma SoundEntry(o: Operation)
    requires Sound(o)
    ensures o.dynamic.Modest() && o.dynamic.Depth() <= o.minStack
    ensures (o.exec.OpSstore? <==> o.dynamic.IsSstore()) && (o.dynamic.CallGas? ==> 3 <= o.minStack)
  {
  }
}

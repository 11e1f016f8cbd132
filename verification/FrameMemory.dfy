/** vm/common.go, vm/memory.go and memoryGasCost of vm/gas_table.go: the byte memory of a frame, the
    size an instruction needs, and the quadratic expansion fee. */
module FrameMemory {
  import opened Uint

  /** The largest size whose fee can be computed in uint64. */
  const MAX_SIZE: U64 := 0x1F_FFFF_FFE0
  const MEMORY_GAS: U64 := 3
  const QUAD_COEFF_DIV: U64 := 512

  // ---- required sizes

  /** calcMemSize64WithUint: None is the overflow flag. */
  function CalcMemSizeWithUint(off: Word, length: U64): (r: Option<U64>)
    ensures r == if length == 0 then Some(0) else if off + length < TWO_64 then Some(off + length) else None
  {
    if length == 0 then Some(0)
    else if off >= TWO_64 then None
    else
      var val := WrapAdd(off, length);
      if val < off then None else Some(val)
  }

  /** calcMemSize64 */
  function CalcMemSize(off: Word, length: Word): (r: Option<U64>)
    ensures r == if length == 0 then Some(0) else if off + length < TWO_64 then Some(off + length) else None
  {
    if length >= TWO_64 then None else CalcMemSizeWithUint(off, length)
  }

  /** toWordSize: the number of 32-byte words, rounded up, without overflow. */
  function ToWordSize(size: U64): (w: U64)
    ensures 32 * (w - 1) < size <= 32 * w || (size == 0 && w == 0)
  {
    if size > MAX_U64 - 31 then MAX_U64 / 32 + 1 else (size + 31) / 32
  }

  function Zeros(n: nat): (z: seq<Byte>)
    ensures |z| == n && forall i :: 0 <= i < n ==> z[i] == 0
  {
    seq(n, _ => 0)
  }

  /** Go's `int(x)` of a uint64. */
  function ToInt(x: U64): (i: int) {
    if x < 0x8000_0000_0000_0000 then x else x - TWO_64
  }

  /** common.RightPadBytes: a length that is already reached, or negative, pads nothing. */
  function RightPad(s: seq<Byte>, n: int): (r: seq<Byte>) {
    if n <= |s| then s else s + Zeros(n - |s|)
  }

  /** getData; None is the panic of a slice whose end is before its start. */
  function GetData(data: Bytes, start: U64, size: U64): (r: Option<seq<Byte>>) {
    var from: U64 := if start > |data| then |data| else start;
    var sum := WrapAdd(from, size);
    var end := if sum > |data| then |data| else sum;
    if end < from then None else Some(RightPad(data[from..end], ToInt(size)))
  }

  /** What its comment promises: size bytes of data from start on, padded with zeros. */
  function Padded(data: Bytes, start: U64, size: U64): (r: seq<Byte>) {
    seq<Byte>(size, i requires 0 <= i < size => if start + i < |data| then data[start + i] else 0)
  }

  /** The promise is kept exactly for sizes below 2^63, whatever the data and the start. */
  lemma GetDataRightIff(data: Bytes, start: U64, size: U64)
    ensures GetData(data, start, size) == Some(Padded(data, start, size)) <==> size < 0x8000_0000_0000_0000
  {
    if size < 0x8000_0000_0000_0000 {
      assert GetData(data, start, size).value == Padded(data, start, size);
    } else {
      GetDataOversized(data, start, size);
      assert |Padded(data, start, size)| == size;
    }
  }

  /** From 2^63 on the length is a negative int and nothing is padded, or the sum wraps and the slice panics. */
  lemma GetDataOversized(data: Bytes, start: U64, size: U64)
    requires size >= 0x8000_0000_0000_0000
    ensures var from := if start > |data| then |data| else start;
      GetData(data, start, size) == if from + size < TWO_64 then Some(data[from..]) else None
  {
    var from := if start > |data| then |data| else start;
    assert data[from..|data|] == data[from..];
  }

  /** One byte of data read from its end with the largest size: the slice bounds come out as 1 and 0. */
  lemma GetDataWraps()
    ensures GetData([7], 1, MAX_U64) == None
  {
    GetDataOversized([7], 1, MAX_U64);
  }

  /** 2^63 bytes of nothing: no bytes come back. */
  lemma GetDataUnpadded()
    ensures GetData([], 0, 0x8000_0000_0000_0000) == Some([])
  {
    GetDataOversized([], 0, 0x8000_0000_0000_0000);
  }

  // ---- the expansion fee

  /** C_mem of the Yellow Paper, Appendix H, for a number of words. */
  function Fee(words: nat): (f: nat) {
    MEMORY_GAS * words + words * words / QUAD_COEFF_DIV
  }

  lemma SquareMonotone(a: nat, b: nat)
    requires a <= b
    ensures a * a <= b * b
  {
    assert a * a <= a * b <= b * b;
  }

  lemma FeeMonotone(a: nat, b: nat)
    requires a <= b
    ensures Fee(a) <= Fee(b)
  {
    SquareMonotone(a, b);
  }

  /** No product or sum of the fee leaves uint64, and the fee stays far below it. */
  lemma FeeFits(words: nat)
    requires words <= 0xFFFF_FFFF
    ensures words * words < TWO_64
    ensures Fee(words) <= 0x80_0003_0000_0000
  {
    SquareMonotone(words, 0xFFFF_FFFF);
  }

  /** MAX_SIZE is exact: one byte more and the square no longer fits. */
  lemma MaxSizeIsExact(size: U64)
    ensures var w: nat := ToWordSize(size); size <= MAX_SIZE <==> w * w < TWO_64
  {
    var w: nat := ToWordSize(size);
    if size <= MAX_SIZE {
      FeeFits(w);
    } else {
      SquareMonotone(0x1_0000_0000, w);
    }
  }

  /** The last size that has a fee, and the first that has none. */
  lemma LargestFee()
    ensures MAX_SIZE == 0x1f_ffff_ffe0 && Expansion(0, MAX_SIZE) == 36_028_809_887_088_637
  {
  }

  function Max(a: nat, b: nat): (m: nat) { if a < b then b else a }

  /** Words held after making room for size bytes. */
  function Grown(words: nat, size: U64): (w: nat) {
    Max(words, ToWordSize(size))
  }

  /** What the expansion of a memory of this many bytes to size costs. */
  function Expansion(bytes: nat, size: U64): (fee: nat) {
    FeeMonotone(bytes / 32, Grown(bytes / 32, size));
    Fee(Grown(bytes / 32, size)) - Fee(bytes / 32)
  }

  lemma ExpansionFits(bytes: nat, size: U64)
    requires bytes <= MAX_SIZE && size <= MAX_SIZE
    ensures Expansion(bytes, size) <= 0x80_0003_0000_0000
  {
    FeeFits(Grown(bytes / 32, size));
  }

  /** Words held after a run of expansions. */
  function GrownAll(words: nat, sizes: seq<U64>): (w: nat)
    decreases |sizes|
  {
    if sizes == [] then words else GrownAll(Grown(words, sizes[0]), sizes[1..])
  }

  /** What a run of expansions pays, each only for what it adds. */
  function PaidAll(words: nat, sizes: seq<U64>): (paid: int)
    decreases |sizes|
  {
    if sizes == [] then 0
    else Fee(Grown(words, sizes[0])) - Fee(words) + PaidAll(Grown(words, sizes[0]), sizes[1..])
  }

  /** Expansion fees telescope: a run pays the fee of its final size minus that of its first, whatever
      the order of the expansions, and no single payment is negative. */
  lemma {:induction false} FeesTelescope(words: nat, sizes: seq<U64>)
    ensures PaidAll(words, sizes) == Fee(GrownAll(words, sizes)) - Fee(words) >= 0
    ensures GrownAll(words, sizes) >= words
    ensures forall s :: s in sizes ==> s <= 32 * GrownAll(words, sizes)
    ensures GrownAll(words, sizes) == words || exists s :: s in sizes && GrownAll(words, sizes) == ToWordSize(s)
    decreases |sizes|
  {
    if sizes != [] {
      FeesTelescope(Grown(words, sizes[0]), sizes[1..]);
      FeeMonotone(words, Grown(words, sizes[0]));
      assert sizes == [sizes[0]] + sizes[1..];
    }
  }

  // ---- words and bytes

  /** The n low bytes of w, most significant first. */
  function ToBytes(w: nat, n: nat): (b: seq<Byte>)
    ensures |b| == n
  {
    if n == 0 then [] else ToBytes(w / 256, n - 1) + [w % 256]
  }

  function FromBytes(b: seq<Byte>): (w: nat) {
    if b == [] then 0 else 256 * FromBytes(b[..|b| - 1]) + b[|b| - 1]
  }

  function Pow256(n: nat): (p: nat) {
    if n == 0 then 1 else 256 * Pow256(n - 1)
  }

  lemma WordRange()
    ensures Pow256(32) == 0x1_0000_0000_0000_0000_0000_0000_0000_0000_0000_0000_0000_0000_0000_0000_0000_0000
  {
    assert Pow256(8) == TWO_64;
    assert Pow256(16) == TWO_64 * TWO_64;
    assert Pow256(24) == TWO_64 * TWO_64 * TWO_64;
  }

  lemma AddressRange()
    ensures Pow256(20) == 0x1_0000_0000_0000_0000_0000_0000_0000_0000_0000_0000
  {
    assert Pow256(8) == TWO_64;
    assert Pow256(16) == TWO_64 * TWO_64;
  }

  lemma {:induction false} PowPositive(n: nat)
    ensures Pow256(n) > 0
  {
    if n > 0 {
      PowPositive(n - 1);
    }
  }

  lemma {:induction false} FromBytesFits(b: seq<Byte>)
    ensures FromBytes(b) < Pow256(|b|)
  {
    if b != [] {
      FromBytesFits(b[..|b| - 1]);
    }
  }

  lemma {:induction false} PowMonotone(m: nat, n: nat)
    requires m <= n
    ensures Pow256(m) <= Pow256(n)
  {
    if m < n {
      PowMonotone(m, n - 1);
    }
  }

  lemma {:induction false} BytesRoundTrip(w: nat, n: nat)
    requires w < Pow256(n)
    ensures FromBytes(ToBytes(w, n)) == w
  {
    if n > 0 {
      BytesRoundTrip(w / 256, n - 1);
      assert ToBytes(w, n)[..n - 1] == ToBytes(w / 256, n - 1);
    }
  }

  lemma {:induction false} BytesBack(b: seq<Byte>)
    ensures ToBytes(FromBytes(b), |b|) == b
  {
    if b != [] {
      BytesBack(b[..|b| - 1]);
    }
  }

  /** Big-endian: byte i of n weighs 256 to the power n - 1 - i. */
  lemma {:induction false} BigEndian(w: nat, n: nat, i: nat)
    requires i < n
    ensures Pow256(n - 1 - i) > 0 && ToBytes(w, n)[i] == w / Pow256(n - 1 - i) % 256
  {
    if i < n - 1 {
      BigEndian(w / 256, n - 1, i);
      DivTwice(w, Pow256(n - 2 - i));
    }
  }

  lemma DivTwice(w: nat, p: nat)
    requires p > 0
    ensures w / 256 / p == w / (256 * p)
  {
    var q := w / (256 * p);
    var r := w % (256 * p);
    assert w == (256 * p) * q + r;
    assert w / 256 == p * q + r / 256;
    assert 0 <= r / 256 < p;
    QuotientIs(w / 256, p, q, r / 256);
  }

  lemma QuotientIs(w: nat, p: nat, q: nat, r: nat)
    requires w == p * q + r && r < p
    ensures w / p == q
  {
    Scale(p, w / p + 1, q);
    Scale(p, q + 1, w / p);
  }

  lemma Scale(p: nat, x: nat, y: nat)
    ensures x <= y ==> p * x <= p * y
  {
  }

  /** The low n bytes do not depend on what is above them. */
  lemma {:induction false} LowBytes(a: nat, q: nat, n: nat)
    ensures ToBytes(q * Pow256(n) + a, n) == ToBytes(a, n)
  {
    if n > 0 {
      var w := q * Pow256(n) + a;
      assert w == 256 * (q * Pow256(n - 1)) + a;
      assert w / 256 == q * Pow256(n - 1) + a / 256;
      LowBytes(a / 256, q, n - 1);
    }
  }

  lemma {:induction false} LastBytes(w: nat, n: nat, k: nat)
    requires k <= n
    ensures ToBytes(w, n)[n - k..] == ToBytes(w, k)
  {
    if k > 0 {
      LastBytes(w / 256, n - 1, k - 1);
    }
  }

  // ---- the memory object

  /** The bytes of a range; an empty one may lie anywhere. */
  function Slice(m: seq<Byte>, off: nat, len: nat): (r: seq<Byte>) {
    if len == 0 || off + len > |m| then [] else m[off..off + len]
  }

  class Memory {
    var store: seq<Byte>
    var lastGasCost: U64

    constructor ()
      ensures store == [] && lastGasCost == 0
      ensures Settled()
    {
      store, lastGasCost := [], 0;
    }

    /** What holds at every loop head: whole words, and lastGasCost is the fee of the current size. */
    predicate Settled()
      reads this
    {
      |store| % 32 == 0 && |store| <= MAX_SIZE && lastGasCost == Fee(|store| / 32)
    }

    /** What holds between charging for size bytes and resizing. */
    predicate Charged(size: U64)
      reads this
    {
      && |store| % 32 == 0 && |store| <= MAX_SIZE && size <= MAX_SIZE
      && lastGasCost == Fee(Grown(|store| / 32, size))
    }

    /** memoryGasCost: charges only for the part that is new; None is ErrGasUintOverflow. */
    method GasCost(newMemSize: U64) returns (fee: Option<U64>)
      requires Settled()
      modifies this`lastGasCost
      ensures fee == None <==> newMemSize > MAX_SIZE
      ensures fee == None ==> lastGasCost == old(lastGasCost)
      ensures fee.Some? ==> Charged(newMemSize)
      ensures fee.Some? ==> fee.value == Expansion(|store|, newMemSize)
      ensures fee.Some? ==>
        var w: nat := |store| / 32;
        var n: nat := if newMemSize <= |store| then w else (newMemSize + 31) / 32;
        fee.value == (3 * n + n * n / 512) - (3 * w + w * w / 512)
    {
      if newMemSize == 0 {
        return Some(0);
      }
      if newMemSize > MAX_SIZE {
        return None;
      }
      var words: nat := ToWordSize(newMemSize);
      var size := words * 32;
      if size > |store| {
        FeeFits(words);
        FeeMonotone(|store| / 32, words);
        var square: U64 := words * words;
        var linCoef: U64 := words * MEMORY_GAS;
        var quadCoef: U64 := square / QUAD_COEFF_DIV;
        var newTotalFee: U64 := linCoef + quadCoef;
        var added: U64 := newTotalFee - lastGasCost;
        lastGasCost := newTotalFee;
        return Some(added);
      }
      return Some(0);
    }

    /** Resize, as the interpreter calls it: right after charging for the same number of bytes. */
    method Resize(size: U64)
      requires Charged(size) && size % 32 == 0
      modifies this`store
      ensures Settled()
      ensures |store| == Max(old(|store|), size)
      ensures store == old(store) + Zeros(|store| - old(|store|))
    {
      if |store| < size {
        store := store + Zeros(size - |store|);
      }
    }

    /** Set: the requires is the panic of the source. */
    method Set(offset: nat, size: nat, value: seq<Byte>)
      requires size > 0 ==> offset + size <= |store|
      modifies this`store
      ensures |store| == old(|store|)
      ensures forall i :: 0 <= i < |store| ==>
        store[i] == if offset <= i < offset + size && i - offset < |value| then value[i - offset] else old(store)[i]
    {
      if size > 0 {
        var n := if |value| < size then |value| else size;
        store := store[..offset] + value[..n] + store[offset + n..];
      }
    }

    /** Set32 */
    method Set32(offset: nat, val: Word)
      requires offset + 32 <= |store|
      modifies this`store
      ensures store == old(store)[..offset] + ToBytes(val, 32) + old(store)[offset + 32..]
    {
      store := store[..offset] + ToBytes(val, 32) + store[offset + 32..];
    }

    /** GetPtr and GetCopy: the bytes of a range inside the store; the empty range is never out of it. */
    function Read(offset: nat, size: nat): (r: seq<Byte>)
      requires size > 0 ==> offset + size <= |store|
      reads this
      ensures |r| == size && (size > 0 ==> r == store[offset..offset + size])
    {
      Slice(store, offset, size)
    }

    /** Copy: source and destination may overlap. */
    method Copy(dst: nat, src: nat, len: nat)
      requires len > 0 ==> dst + len <= |store| && src + len <= |store|
      modifies this`store
      ensures |store| == old(|store|)
      ensures len > 0 ==> store == old(store)[..dst] + old(store)[src..src + len] + old(store)[dst + len..]
      ensures len == 0 ==> store == old(store)
    {
      if len == 0 {
        return;
      }
      store := store[..dst] + store[src..src + len] + store[dst + len..];
    }
  }

  /** MSTORE then MLOAD at one offset gives the word back, and no byte outside changed. */
  method StoreLoad(mem: Memory, offset: nat, val: Word) returns (loaded: Word)
    requires offset + 32 <= |mem.store|
    modifies mem`store
    ensures loaded == val
    ensures |mem.store| == old(|mem.store|)
    ensures forall i :: 0 <= i < |mem.store| && !(offset <= i < offset + 32) ==> mem.store[i] == old(mem.store)[i]
  {
    mem.Set32(offset, val);
    var bytes := mem.Read(offset, 32);
    assert bytes == ToBytes(val, 32);
    WordRange();
    BytesRoundTrip(val, 32);
    loaded := FromBytes(bytes);
  }
}

/** vm/analysis.go: the jump-destination analysis.

    The analysis marks PUSH arguments with stores of up to sixteen bits at a time, and the bytes after
    the first one of a store are overwritten rather than OR-ed.  The reference is a scan that looks at
    one byte of the code after the other.
 */
module Bitmap {
  import opened Uint

  const PUSH1: int := 0x60
  const PUSH32: int := 0x7f

  /** Number of argument bytes of an opcode. */
  function PushSize(op: Byte): (n: nat)
  {
    if PUSH1 <= op <= PUSH32 then op - PUSH1 + 1 else 0
  }

  /** The opcode at i; past the end of the code there is STOP. */
  function OpAt(code: seq<Byte>, i: nat): (op: Byte) {
    if i < |code| then code[i] else 0
  }

  /** Byte-by-byte reference scan: how many bytes from i on, i included, still belong to a PUSH argument. */
  function Pending(code: seq<Byte>, i: nat): (n: nat)
  {
    if i == 0 then 0
    else
      var before := Pending(code, i - 1);
      if before > 0 then before - 1 else PushSize(OpAt(code, i - 1))
  }

  /** Position i is an argument byte, not an instruction. */
  predicate IsData(code: seq<Byte>, i: nat) {
    Pending(code, i) > 0
  }

  /** i is an instruction, PUSH1 to PUSH32, whose argument covers p. */
  ghost predicate Covers(code: seq<Byte>, i: nat, p: nat) {
    !IsData(code, i) && 0x60 <= OpAt(code, i) <= 0x7f && i < p <= i + (OpAt(code, i) - 0x5f)
  }

  /** A byte is data exactly when some PUSH instruction's argument covers it. */
  lemma DataIff(code: seq<Byte>, p: nat)
    ensures IsData(code, p) <==> exists i: nat :: Covers(code, i, p)
  {
    if IsData(code, p) {
      var i := CoveredBy(code, p);
      assert Covers(code, i, p);
    } else {
      forall i: nat ensures !Covers(code, i, p) {
        if Covers(code, i, p) {
          PendingAhead(code, i + 1, p - i - 1);
          assert false;
        }
      }
    }
  }

  lemma {:induction false} CoveredBy(code: seq<Byte>, p: nat) returns (i: nat)
    requires IsData(code, p)
    ensures Covers(code, i, p) && Pending(code, p) == i + 1 + PushSize(OpAt(code, i)) - p
  {
    if Pending(code, p - 1) == 0 {
      i := p - 1;
    } else {
      i := CoveredBy(code, p - 1);
    }
  }

  /** From an instruction over its argument one comes to an instruction. */
  lemma NextInstruction(code: seq<Byte>, i: nat)
    requires !IsData(code, i)
    ensures !IsData(code, i + 1 + PushSize(OpAt(code, i)))
  {
    PendingAhead(code, i + 1, PushSize(OpAt(code, i)));
  }

  /** Yellow Paper section 9.4.3: p is reached from i by stepping from instruction to instruction. */
  predicate StartsFrom(code: seq<Byte>, i: nat, p: nat)
    decreases p - i
  {
    i == p || (i < p && StartsFrom(code, i + 1 + PushSize(OpAt(code, i)), p))
  }

  /** The byte-by-byte scan and the instruction-by-instruction walk name the same instruction starts. */
  lemma {:induction false} StartsAreNotData(code: seq<Byte>, i: nat, p: nat)
    requires Pending(code, i) == 0 && i <= p
    ensures StartsFrom(code, i, p) <==> !IsData(code, p)
    decreases p - i
  {
    if i < p {
      var n := PushSize(OpAt(code, i));
      assert Pending(code, i + 1) == n;
      if i + 1 + n <= p {
        PendingAhead(code, i + 1, n);
        StartsAreNotData(code, i + 1 + n, p);
      } else {
        PendingAhead(code, i + 1, p - i - 1);
      }
    }
  }

  // ---- single bits of a byte

  function Mask(k: nat): (m: bv8)
    requires k < 8
  {
    if k == 0 then 1 else if k == 1 then 2 else if k == 2 then 4 else if k == 3 then 8
    else if k == 4 then 16 else if k == 5 then 32 else if k == 6 then 64 else 128
  }

  /** Bit k of a byte. */
  predicate Bit(b: bv8, k: nat)
    requires k < 8
  {
    b & Mask(k) != 0
  }

  /** Bit p of a buffer. */
  predicate BitAt(bits: seq<bv8>, p: nat)
    requires p < 8 * |bits|
  {
    Bit(bits[p / 8], p % 8)
  }

  /** `(b >> k) & 1` reads bit k. */
  lemma ShiftReadsBit(b: bv8, k: nat)
    requires k < 8
    ensures (b >> k) & 1 == 0 <==> !Bit(b, k)
  {
    if k == 0 {} else if k == 1 {} else if k == 2 {} else if k == 3 {}
    else if k == 4 {} else if k == 5 {} else if k == 6 {} else {}
  }

  // ---- the stores of the analysis, first on bytes

  /** `0xFF << s` and its complement: the two halves of eight ones starting at bit s. */
  lemma EightOnes(s: nat, k: nat)
    requires s < 8 && k < 8
    ensures Bit(0xFF << s, k) <==> s <= k
    ensures Bit(!(0xFF << s), k) <==> k < s
  {
    if s == 0 {} else if s == 1 {} else if s == 2 {} else if s == 3 {}
    else if s == 4 {} else if s == 5 {} else if s == 6 {} else {}
  }

  lemma OneBit(s: nat, k: nat)
    requires s < 8 && k < 8
    ensures Bit(1 << s, k) <==> k == s
  {
    if s == 0 {} else if s == 1 {} else if s == 2 {} else if s == 3 {}
    else if s == 4 {} else if s == 5 {} else if s == 6 {} else {}
  }

  lemma OrBits(a: bv8, b: bv8, k: nat)
    requires k < 8
    ensures Bit(a | b, k) <==> Bit(a, k) || Bit(b, k)
  {
    hide Mask;
    OrMasked(a, b, Mask(k));
  }

  lemma OrMasked(a: bv8, b: bv8, m: bv8)
    ensures (a | b) & m == (a & m) | (b & m)
    ensures (a & m) | (b & m) == 0 <==> a & m == 0 && b & m == 0
  {
  }

  /** The masks set2BitsMask .. set7BitsMask. */
  function Ones(n: nat): (flag: bv16)
    requires 2 <= n <= 7
  {
    if n == 2 then 0x3 else if n == 3 then 0x7 else if n == 4 then 0xF
    else if n == 5 then 0x1F else if n == 6 then 0x3F else 0x7F
  }

  /** `byte(a)` and `byte(a >> 8)` of a uint16. */
  function LowByte(a: bv16): (b: bv8) { (a & 0xFF) as bv8 }
  function HighByte(a: bv16): (b: bv8) { (a >> 8) as bv8 }

  /** The shifted flag split over two bytes holds n ones starting at bit s. */
  lemma FlagBits(n: nat, s: nat, k: nat)
    requires 2 <= n <= 7 && s < 8 && k < 8
    ensures Bit(LowByte(Ones(n) << s), k) <==> s <= k < s + n
    ensures Bit(HighByte(Ones(n) << s), k) <==> k + 8 < s + n
  {
    if s == 0 {} else if s == 1 {} else if s == 2 {} else if s == 3 {}
    else if s == 4 {} else if s == 5 {} else if s == 6 {} else {}
  }

  // ---- the same stores on the buffer

  /** No bit from pos on is set. */
  ghost predicate ClearFrom(bits: seq<bv8>, pos: nat) {
    forall p :: pos <= p < 8 * |bits| ==> !BitAt(bits, p)
  }

  /** after is before with the n bits from pos on set and every other bit kept. */
  ghost predicate SetsRange(before: seq<bv8>, after: seq<bv8>, pos: nat, n: nat) {
    && |after| == |before|
    && forall p :: 0 <= p < 8 * |before| ==> (BitAt(after, p) <==> BitAt(before, p) || pos <= p < pos + n)
  }

  method Set1(bits: array<bv8>, pos: nat)
    requires pos < 8 * bits.Length
    modifies bits
    ensures SetsRange(old(bits[..]), bits[..], pos, 1)
  {
    ghost var was := bits[..];
    var a := OneAt(pos % 8);
    bits[pos / 8] := bits[pos / 8] | a;
    OneByteStore(was, bits[..], a, pos);
  }

  method OneAt(s: nat) returns (a: bv8)
    requires s < 8
    ensures forall k :: 0 <= k < 8 ==> (Bit(a, k) <==> k == s)
  {
    a := 1 << s;
    forall k | 0 <= k < 8 ensures Bit(a, k) <==> k == s {
      OneBit(s, k);
    }
  }

  lemma OneByteStore(was: seq<bv8>, now: seq<bv8>, a: bv8, pos: nat)
    requires pos < 8 * |was|
    requires forall k :: 0 <= k < 8 ==> (Bit(a, k) <==> k == pos % 8)
    requires now == was[pos / 8 := was[pos / 8] | a]
    ensures SetsRange(was, now, pos, 1)
  {
    hide Bit, BitAt;
    forall p | 0 <= p < 8 * |was|
      ensures BitAt(now, p) <==> BitAt(was, p) || pos <= p < pos + 1
    {
      OneByteStoreAt(was, now, a, pos, p);
    }
  }

  lemma OneByteStoreAt(was: seq<bv8>, now: seq<bv8>, a: bv8, pos: nat, p: nat)
    requires pos < 8 * |was| && p < 8 * |was|
    requires forall k :: 0 <= k < 8 ==> (Bit(a, k) <==> k == pos % 8)
    requires now == was[pos / 8 := was[pos / 8] | a]
    ensures BitAt(now, p) <==> BitAt(was, p) || p == pos
  {
    hide Bit;
    if p / 8 == pos / 8 {
      OrBits(was[pos / 8], a, p % 8);
      assert p == pos <==> p % 8 == pos % 8;
    }
  }

  /** Two bytes lo and hi hold n ones starting at bit s of lo. */
  ghost predicate HoldOnes(lo: bv8, hi: bv8, n: nat, s: nat) {
    && (forall k :: 0 <= k < 8 ==> (Bit(lo, k) <==> s <= k < s + n))
    && (forall k :: 0 <= k < 8 ==> (Bit(hi, k) <==> k + 8 < s + n))
  }

  /** OR-ing lo and overwriting the next byte with hi sets n bits and loses none. */
  lemma TwoByteStore(was: seq<bv8>, now: seq<bv8>, lo: bv8, hi: bv8, n: nat, pos: nat)
    requires n <= 8 && pos / 8 + 1 < |was|
    requires HoldOnes(lo, hi, n, pos % 8)
    requires ClearFrom(was, pos)
    requires now == was[pos / 8 := was[pos / 8] | lo][pos / 8 + 1 := hi]
    ensures SetsRange(was, now, pos, n)
  {
    hide Bit;
    forall p | 0 <= p < 8 * |was|
      ensures BitAt(now, p) <==> BitAt(was, p) || pos <= p < pos + n
    {
      OrBits(was[pos / 8], lo, p % 8);
    }
  }

  /** A byte without set bits is zero. */
  lemma NoBitsIsZero(b: bv8)
    requires forall k :: 0 <= k < 8 ==> !Bit(b, k)
    ensures b == 0
  {
    assert !Bit(b, 0) && !Bit(b, 1) && !Bit(b, 2) && !Bit(b, 3);
    assert !Bit(b, 4) && !Bit(b, 5) && !Bit(b, 6) && !Bit(b, 7);
  }

  lemma ClearByte(bits: seq<bv8>, pos: nat, i: nat)
    requires ClearFrom(bits, pos)
    requires pos <= 8 * i && i < |bits|
    ensures bits[i] == 0
  {
    forall k | 0 <= k < 8 ensures !Bit(bits[i], k) {
      assert !BitAt(bits, 8 * i + k);
    }
    NoBitsIsZero(bits[i]);
  }

  method FlagBytes(n: nat, s: nat) returns (lo: bv8, hi: bv8)
    requires 2 <= n <= 7 && s < 8
    ensures HoldOnes(lo, hi, n, s)
  {
    var a := Ones(n) << s;
    lo, hi := LowByte(a), HighByte(a);
    forall k | 0 <= k < 8 ensures (Bit(lo, k) <==> s <= k < s + n) && (Bit(hi, k) <==> k + 8 < s + n) {
      FlagBits(n, s, k);
    }
  }

  /** The second byte is overwritten, not OR-ed, and only when some bit of the flag spills into it. */
  method SetN(bits: array<bv8>, n: nat, pos: nat)
    requires 2 <= n <= 7
    requires pos + 8 < 8 * bits.Length
    requires ClearFrom(bits[..], pos)
    modifies bits
    ensures SetsRange(old(bits[..]), bits[..], pos, n)
  {
    hide Bit, HoldOnes, ClearFrom, SetsRange;
    ghost var was := bits[..];
    ClearByte(was, pos, pos / 8 + 1);
    var lo, hi := FlagBytes(n, pos % 8);
    bits[pos / 8] := bits[pos / 8] | lo;
    if hi != 0 {
      bits[pos / 8 + 1] := hi;
    }
    TwoByteStore(was, bits[..], lo, hi, n, pos);
  }

  method Set8(bits: array<bv8>, pos: nat)
    requires pos + 8 < 8 * bits.Length
    requires ClearFrom(bits[..], pos)
    modifies bits
    ensures SetsRange(old(bits[..]), bits[..], pos, 8)
  {
    ghost var was := bits[..];
    var a := HighOnes(pos % 8);
    bits[pos / 8] := bits[pos / 8] | a;
    bits[pos / 8 + 1] := !a;
    TwoByteStore(was, bits[..], a, !a, 8, pos);
  }

  /** `byte(0xFF << s)`: with its complement it holds eight ones from bit s on. */
  method HighOnes(s: nat) returns (a: bv8)
    requires s < 8
    ensures HoldOnes(a, !a, 8, s)
  {
    a := 0xFF << s;
    forall k | 0 <= k < 8 ensures (Bit(a, k) <==> s <= k < s + 8) && (Bit(!a, k) <==> k + 8 < s + 8) {
      EightOnes(s, k);
    }
  }

  method Set16(bits: array<bv8>, pos: nat)
    requires pos + 16 < 8 * bits.Length
    requires ClearFrom(bits[..], pos)
    modifies bits
    ensures SetsRange(old(bits[..]), bits[..], pos, 16)
  {
    ghost var was := bits[..];
    var a := HighOnes(pos % 8);
    bits[pos / 8] := bits[pos / 8] | a;
    bits[pos / 8 + 1] := 0xFF;
    bits[pos / 8 + 2] := !a;
    ThreeByteStore(was, bits[..], a, pos);
  }

  lemma ThreeByteStore(was: seq<bv8>, now: seq<bv8>, a: bv8, pos: nat)
    requires pos / 8 + 2 < |was|
    requires HoldOnes(a, !a, 8, pos % 8)
    requires ClearFrom(was, pos)
    requires now == was[pos / 8 := was[pos / 8] | a][pos / 8 + 1 := 0xFF][pos / 8 + 2 := !a]
    ensures SetsRange(was, now, pos, 16)
  {
    hide Bit;
    forall p | 0 <= p < 8 * |was|
      ensures BitAt(now, p) <==> BitAt(was, p) || pos <= p < pos + 16
    {
      OrBits(was[pos / 8], a, p % 8);
      AllOnes(p % 8);
    }
  }

  lemma AllOnes(k: nat)
    requires k < 8
    ensures Bit(0xFF, k)
  {
    EightOnes(0, k);
  }

  /** Reads a finished bitmap: an unset bit is an instruction. */
  method CodeSegment(bits: seq<bv8>, pos: nat) returns (isCode: bool)
    requires pos < 8 * |bits|
    ensures isCode <==> !BitAt(bits, pos)
  {
    ShiftReadsBit(bits[pos / 8], pos % 8);
    isCode := (bits[pos / 8] >> (pos % 8)) & 1 == 0;
  }

  // ---- the analysis

  /** bits is the data map of code: bit p is set exactly for the argument bytes. */
  ghost predicate Describes(code: seq<Byte>, bits: seq<bv8>) {
    && |bits| == |code| / 8 + 5
    && forall p :: 0 <= p < 8 * |bits| ==> (BitAt(bits, p) <==> IsData(code, p))
  }

  /** What holds of the buffer when the scan stands at pc. */
  ghost predicate DoneTo(code: seq<Byte>, bits: seq<bv8>, pc: nat) {
    && ClearFrom(bits, pc)
    && forall p :: 0 <= p < pc && p < 8 * |bits| ==> (BitAt(bits, p) <==> IsData(code, p))
  }

  /** `int8(op)` */
  function Signed(op: Byte): (r: int) {
    if op < 128 then op else op - 256
  }

  /** n argument bytes from pc on: each is data, and the scan goes on after them. */
  lemma PendingAhead(code: seq<Byte>, pc: nat, n: nat)
    requires n <= Pending(code, pc)
    ensures Pending(code, pc + n) == Pending(code, pc) - n
    ensures forall p :: pc <= p < pc + n ==> IsData(code, p)
  {
    if n > 0 {
      PendingAhead(code, pc, n - 1);
    }
  }

  /** One store moves the scan over n argument bytes. */
  lemma StoreAdvances(code: seq<Byte>, before: seq<bv8>, after: seq<bv8>, pc: nat, n: nat)
    requires DoneTo(code, before, pc)
    requires n <= Pending(code, pc)
    requires SetsRange(before, after, pc, n)
    ensures DoneTo(code, after, pc + n)
    ensures Pending(code, pc + n) == Pending(code, pc) - n
  {
    PendingAhead(code, pc, n);
  }

  lemma NothingAhead(code: seq<Byte>, bits: seq<bv8>, pc: nat)
    requires DoneTo(code, bits, pc)
    ensures ClearFrom(bits, pc)
  {
  }

  lemma NothingSet(bits: seq<bv8>, pc: nat)
    ensures SetsRange(bits, bits, pc, 0)
  {
  }

  /** Past the end of the code there are at most 32 argument bytes, then only STOPs. */
  lemma NoDataPastEnd(code: seq<Byte>, pc: nat, p: nat)
    requires |code| <= pc <= p && Pending(code, pc) == 0
    ensures !IsData(code, p)
  {
    if pc < p {
      NoDataPastEnd(code, pc, p - 1);
    }
  }

  method CodeBitmap(code: seq<Byte>) returns (bits: array<bv8>)
    ensures fresh(bits)
    ensures Describes(code, bits[..])
  {
    bits := new bv8[|code| / 8 + 1 + 4](_ => 0);
    var pc := 0;
    while pc < |code|
      invariant Pending(code, pc) == 0
      invariant DoneTo(code, bits[..], pc)
    {
      var op := code[pc];
      pc := pc + 1;
      if Signed(op) < PUSH1 {
        continue;
      }
      pc := MarkArgument(code, bits, pc, op - PUSH1 + 1);
    }
    forall p | 0 <= p < 8 * bits.Length ensures BitAt(bits[..], p) <==> IsData(code, p) {
      if pc <= p {
        NoDataPastEnd(code, pc, p);
      }
    }
  }

  /** The body of the scan for a PUSH with the given number of argument bytes. */
  method MarkArgument(code: seq<Byte>, bits: array<bv8>, start: nat, size: nat) returns (pc: nat)
    requires start <= |code| && bits.Length == |code| / 8 + 5
    requires Pending(code, start) == size && 1 <= size <= 32
    requires DoneTo(code, bits[..], start)
    modifies bits
    ensures pc == start + size
    ensures Pending(code, pc) == 0
    ensures DoneTo(code, bits[..], pc)
  {
    hide ClearFrom, SetsRange, DoneTo, Pending;
    pc := start;
    var numbits := size;
    if numbits >= 8 {
      while numbits >= 16
        invariant pc + numbits == start + size && (pc - start) % 8 == 0
        invariant Pending(code, pc) == numbits
        invariant DoneTo(code, bits[..], pc)
      {
        ghost var was := bits[..];
        NothingAhead(code, was, pc);
        Set16(bits, pc);
        StoreAdvances(code, was, bits[..], pc, 16);
        pc, numbits := pc + 16, numbits - 16;
      }
      while numbits >= 8
        invariant pc + numbits == start + size && (pc - start) % 8 == 0
        invariant Pending(code, pc) == numbits < 16
        invariant DoneTo(code, bits[..], pc)
      {
        ghost var was := bits[..];
        NothingAhead(code, was, pc);
        Set8(bits, pc);
        StoreAdvances(code, was, bits[..], pc, 8);
        pc, numbits := pc + 8, numbits - 8;
      }
    }
    ghost var was := bits[..];
    NothingAhead(code, was, pc);
    if numbits == 1 {
      Set1(bits, pc);
    } else if numbits > 1 {
      SetN(bits, numbits, pc);
    } else {
      NothingSet(was, pc);
    }
    StoreAdvances(code, was, bits[..], pc, numbits);
    pc := pc + numbits;
  }
}

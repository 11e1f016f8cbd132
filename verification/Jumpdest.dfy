/** vm/contract.go: jump-destination checks over the shared and the local analysis cache. */
module Jumpdest {
  import opened Uint
  import opened Bitmap

  /** A code hash.  Keccak is taken to tell codes apart, so a hash names its code; init code may go without one. */
  datatype Hash = NoHash | HashOf(code: Bytes)

  const JUMPDEST: Byte := 0x5b

  /** A valid jump target: inside the code, a JUMPDEST, and an instruction start. */
  predicate IsJumpdest(code: seq<Byte>, dest: Word) {
    dest < |code| && code[dest] == 0x5b && StartsFrom(code, 0, dest)
  }

  /** The map `jumpdests`, shared by a frame and all frames below it. */
  class JumpdestMap {
    var table: map<Hash, seq<bv8>>

    constructor ()
      ensures table == map[] && Valid()
    {
      table := map[];
    }

    /** Every cached bitmap describes the code of its hash. */
    ghost predicate Valid()
      reads this
    {
      forall h :: h in table ==> h.HashOf? && Describes(h.code, table[h])
    }
  }

  class Contract {
    const jumpdests: JumpdestMap
    const code: Bytes
    const codeHash: Hash
    var analysis: Option<seq<bv8>>

    /** The frame's own part: its hash is the one of its code, and its bitmap describes it. */
    ghost predicate Own()
      reads this
    {
      && (codeHash == NoHash || codeHash == HashOf(code))
      && (analysis.Some? ==> Describes(code, analysis.value))
    }

    ghost predicate Valid()
      reads this, jumpdests
    {
      jumpdests.Valid() && Own()
    }

    /** NewContract with SetCallCode or SetCodeOptionalHash: the map is the caller's, or a fresh one for a caller from
        outside. */
    constructor (jumpdests: JumpdestMap, codeHash: Hash, code: Bytes)
      requires codeHash == NoHash || codeHash == HashOf(code)
      ensures Own() && this.jumpdests == jumpdests
      ensures this.code == code && this.codeHash == codeHash && analysis == None
    {
      this.jumpdests, this.code, this.codeHash, analysis := jumpdests, code, codeHash, None;
    }

    /** The three analysis routes: local cache, shared cache (filled on a miss), fresh analysis. */
    method IsCode(udest: nat) returns (r: bool)
      requires Valid() && udest < |code|
      modifies this`analysis, jumpdests
      ensures Valid()
      ensures r <==> !IsData(code, udest)
      ensures codeHash == NoHash || old(analysis).Some? ==> jumpdests.table == old(jumpdests.table)
      ensures forall h :: h in old(jumpdests.table) ==>
        h in jumpdests.table && jumpdests.table[h] == old(jumpdests.table)[h]
    {
      if analysis.Some? {
        r := CodeSegment(analysis.value, udest);
        return;
      }
      if codeHash != NoHash {
        var found: seq<bv8>;
        if codeHash !in jumpdests.table {
          var bits := CodeBitmap(code);
          found := bits[..];
          jumpdests.table := jumpdests.table[codeHash := found];
        } else {
          found := jumpdests.table[codeHash];
        }
        analysis := Some(found);
        r := CodeSegment(found, udest);
        return;
      }
      var bits := CodeBitmap(code);
      analysis := Some(bits[..]);
      r := CodeSegment(bits[..], udest);
    }

    method ValidJumpdest(dest: Word) returns (r: bool)
      requires Valid()
      modifies this`analysis, jumpdests
      ensures Valid()
      ensures r <==> IsJumpdest(code, dest)
      ensures forall h :: h in old(jumpdests.table) ==>
        h in jumpdests.table && jumpdests.table[h] == old(jumpdests.table)[h]
    {
      if dest >= TWO_64 || dest >= |code| {
        return false;
      }
      if code[dest] != JUMPDEST {
        return false;
      }
      StartsAreNotData(code, 0, dest);
      r := IsCode(dest);
    }
  }

  /** One jump executed somewhere in a tree of frames. */
  datatype Query = Query(frame: Contract, dest: Word)

  /** Over any interleaving of jumps in frames that share one map, every answer is the right one. */
  method AnswerAll(shared: JumpdestMap, queries: seq<Query>) returns (answers: seq<bool>)
    requires forall i :: 0 <= i < |queries| ==>
      queries[i].frame.jumpdests == shared && queries[i].frame.Valid()
    modifies shared, set i | 0 <= i < |queries| :: queries[i].frame
    ensures |answers| == |queries|
    ensures forall i :: 0 <= i < |queries| ==>
      (answers[i] <==> IsJumpdest(queries[i].frame.code, queries[i].dest))
  {
    answers := [];
    for k := 0 to |queries|
      invariant |answers| == k
      invariant forall i :: 0 <= i < |queries| ==> queries[i].frame.Valid()
      invariant forall i :: 0 <= i < k ==>
        (answers[i] <==> IsJumpdest(queries[i].frame.code, queries[i].dest))
    {
      var r := queries[k].frame.ValidJumpdest(queries[k].dest);
      answers := answers + [r];
    }
  }
}

/** core/evm.go: the ancestor-hash lookup behind BLOCKHASH and its cache. */
module BlockHash {
  import opened Uint

  type Hash = Word

  datatype Header = Header(parentHash: Hash, number: U64)

  /** ChainContext.GetHeader: deterministic, and a header found under number k carries number k. */
  type Chain = f: (Hash, U64) -> Option<Header> |
    forall h: Hash, k: U64 :: f(h, k).Some? ==> f(h, k).value.number == k
    witness (h: Hash, k: U64) => None

  /** Uncached walk: the hash of the ancestor k generations above the parent of ref, if all headers
      on the way are known. */
  function Ancestor(chain: Chain, ref: Header, k: nat): (h: Option<Hash>)
    requires k < ref.number
  {
    if k == 0 then Some(ref.parentHash)
    else
      match Ancestor(chain, ref, k - 1)
      case None => None
      case Some(h) =>
        match chain(h, ref.number - k)
        case None => None
        case Some(header) => Some(header.parentHash)
  }

  /** The answer an uncached walk gives for block n: the zero hash when n is not a known ancestor. */
  function Uncached(chain: Chain, ref: Header, n: U64): (h: Hash) {
    if ref.number <= n then 0
    else
      match Ancestor(chain, ref, ref.number - n - 1)
      case Some(h) => h
      case None => 0
  }

  /** A walk that stops at generation k stops for every older one. */
  lemma {:induction false} UnknownStaysUnknown(chain: Chain, ref: Header, k: nat, m: nat)
    requires k <= m < ref.number
    requires Ancestor(chain, ref, k) == None
    ensures Ancestor(chain, ref, m) == None
  {
    if k < m {
      UnknownStaysUnknown(chain, ref, k, m - 1);
    }
  }

  /** The cache is a prefix of the ancestor hashes, and each header behind it was fetched once, in order. */
  ghost predicate Consistent(chain: Chain, ref: Header, cache: seq<Hash>, fetched: seq<(Hash, U64)>) {
    && |cache| <= ref.number
    && (forall i :: 0 <= i < |cache| ==> Ancestor(chain, ref, i) == Some(cache[i]))
    && |fetched| == (if cache == [] then 0 else |cache| - 1)
    && (forall i :: 0 <= i < |fetched| ==> fetched[i] == (cache[i], ref.number - 1 - i))
  }

  lemma ConsistentExtends(chain: Chain, ref: Header, cache: seq<Hash>, fetched: seq<(Hash, U64)>, header: Header)
    requires Consistent(chain, ref, cache, fetched) && 1 <= |cache| < ref.number
    requires chain(cache[|cache| - 1], ref.number - |cache|) == Some(header)
    ensures Consistent(chain, ref, cache + [header.parentHash],
                       fetched + [(cache[|cache| - 1], ref.number - |cache|)])
  {
    assert Ancestor(chain, ref, |cache| - 1) == Some(cache[|cache| - 1]);
  }

  /** The closure returned by GetHashFn. */
  class HashLookup {
    const ref: Header
    const chain: Chain
    var cache: seq<Hash>
    /** The calls of GetHeader that found a header, oldest first. */
    ghost var fetched: seq<(Hash, U64)>

    ghost predicate Valid()
      reads this
    {
      Consistent(chain, ref, cache, fetched)
    }

    constructor (ref: Header, chain: Chain)
      ensures Valid() && cache == [] && this.ref == ref && this.chain == chain
    {
      this.ref, this.chain := ref, chain;
      cache, fetched := [], [];
    }

    method GetHash(n: U64) returns (h: Hash)
      requires Valid()
      modifies this`cache, this`fetched
      ensures Valid()
      ensures h == Uncached(chain, ref, n)
      ensures old(cache) <= cache && old(fetched) <= fetched
    {
      if ref.number <= n {
        return 0;
      }
      if |cache| == 0 {
        cache := cache + [ref.parentHash];
      }
      var idx := ref.number - n - 1;
      if idx < |cache| {
        return cache[idx];
      }
      h := Walk(n);
    }

    /** The loop of the closure: from the last cached ancestor down to block n. */
    method Walk(n: U64) returns (h: Hash)
      requires Valid() && 1 <= |cache| && |cache| < ref.number - n
      modifies this`cache, this`fetched
      ensures Valid()
      ensures h == Uncached(chain, ref, n)
      ensures old(cache) <= cache && old(fetched) <= fetched
    {
      var lastKnownHash := cache[|cache| - 1];
      var lastKnownNumber: U64 := ref.number - |cache|;
      while true
        invariant Valid() && 1 <= |cache| < ref.number - n
        invariant old(cache) <= cache && old(fetched) <= fetched
        invariant lastKnownHash == cache[|cache| - 1]
        invariant lastKnownNumber == ref.number - |cache|
        decreases lastKnownNumber
      {
        var header := chain(lastKnownHash, lastKnownNumber);
        assert Ancestor(chain, ref, |cache| - 1) == Some(lastKnownHash);
        if header == None {
          UnknownStaysUnknown(chain, ref, |cache|, ref.number - n - 1);
          return 0;
        }
        ConsistentExtends(chain, ref, cache, fetched, header.value);
        fetched := fetched + [(lastKnownHash, lastKnownNumber)];
        cache := cache + [header.value.parentHash];
        lastKnownHash := header.value.parentHash;
        lastKnownNumber := WrapSub(header.value.number, 1);
        if n == lastKnownNumber {
          return lastKnownHash;
        }
      }
    }

    /** No header is found twice, over any number of lookups. */
    lemma FetchedOnce(i: nat, j: nat)
      requires Valid() && i < j < |fetched|
      ensures fetched[i] != fetched[j]
    {
    }
  }

  /** For any sequence of queries the cached lookup answers as the uncached walk does. */
  method AnswerAll(lookup: HashLookup, queries: seq<U64>) returns (answers: seq<Hash>)
    requires lookup.Valid()
    modifies lookup`cache, lookup`fetched
    ensures lookup.Valid()
    ensures |answers| == |queries|
    ensures forall i :: 0 <= i < |queries| ==> answers[i] == Uncached(lookup.chain, lookup.ref, queries[i])
  {
    answers := [];
    for k := 0 to |queries|
      invariant lookup.Valid() && |answers| == k
      invariant forall i :: 0 <= i < k ==> answers[i] == Uncached(lookup.chain, lookup.ref, queries[i])
    {
      var h := lookup.GetHash(queries[k]);
      answers := answers + [h];
    }
  }
}

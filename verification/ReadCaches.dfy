/** The read cache of a flow control: a map from (log segment, line tag) to cache
line, whose elements are chained from the most to the least recently used.
*/
module ReadCaches {
  import opened Common

  type Byte = b: int | 0 <= b < 256

  datatype CacheKey = CacheKey(segment: nat, tag: nat)

  // ----- recency, as a value -----

  function Without(keys: seq<CacheKey>, k: CacheKey): seq<CacheKey> {
    if keys == [] then [] else (if keys[0] == k then [] else [keys[0]]) + Without(keys[1..], k)
  }

  /** The keys of an access history (oldest access first), each once, the last accessed first. */
  function ByRecency(history: seq<CacheKey>): seq<CacheKey> {
    if history == [] then []
    else
      var last := history[|history| - 1];
      [last] + Without(ByRecency(history[..|history| - 1]), last)
  }

  function Take(n: nat, keys: seq<CacheKey>): seq<CacheKey> {
    if |keys| <= n then keys else keys[..n]
  }

  lemma {:induction false} WithoutAbsent(keys: seq<CacheKey>, k: CacheKey)
    requires k !in keys
    ensures Without(keys, k) == keys
  {
    if keys != [] {
      WithoutAbsent(keys[1..], k);
    }
  }

  lemma {:induction false} WithoutAt(keys: seq<CacheKey>, j: nat)
    requires Distinct(keys) && j < |keys|
    ensures Without(keys, keys[j]) == keys[..j] + keys[j + 1..]
  {
    if j == 0 {
      WithoutAbsent(keys[1..], keys[0]);
    } else {
      WithoutAt(keys[1..], j - 1);
      assert keys[..j] == [keys[0]] + keys[1..][..j - 1];
    }
  }

  lemma {:induction false} WithoutElements(keys: seq<CacheKey>, k: CacheKey)
    ensures forall x :: x in Without(keys, k) <==> x in keys && x != k
    ensures Distinct(keys) ==> Distinct(Without(keys, k))
  {
    if keys != [] {
      WithoutElements(keys[1..], k);
      assert keys == [keys[0]] + keys[1..];
      if Distinct(keys) {
        forall i | 0 <= i < |Without(keys[1..], k)| ensures Without(keys[1..], k)[i] != keys[0] {
          assert Without(keys[1..], k)[i] in keys[1..];
        }
      }
    }
  }

  lemma {:induction false} ByRecencyDistinct(history: seq<CacheKey>)
    ensures Distinct(ByRecency(history))
    ensures forall x :: x in ByRecency(history) <==> x in history
  {
    if history != [] {
      var last := history[|history| - 1];
      var older := history[..|history| - 1];
      ByRecencyDistinct(older);
      var rest := Without(ByRecency(older), last);
      WithoutElements(ByRecency(older), last);
      DistinctFront(last, rest);
      assert history == older + [last];
      assert forall x :: x in [last] + rest <==> x == last || x in ByRecency(older);
    }
  }

  lemma DistinctFront(k: CacheKey, keys: seq<CacheKey>)
    requires Distinct(keys) && k !in keys
    ensures Distinct([k] + keys)
  {
  }

  /** One step of the cache on its keys: a hit moves the key to the front, a
      miss puts it there, first dropping the last key when the cache is full. */
  function Access(keys: seq<CacheKey>, lineCount: nat, k: CacheKey): seq<CacheKey>
    requires lineCount > 0
  {
    if k in keys then [k] + Without(keys, k)
    else if |keys| >= lineCount then [k] + keys[..|keys| - 1]
    else [k] + keys
  }

  /** Least-recently-used replacement: after every access history the cache
      holds exactly the `lineCount` most recently accessed keys, in order of recency. */
  lemma {:induction false} AccessKeepsMostRecent(history: seq<CacheKey>, lineCount: nat, k: CacheKey)
    requires lineCount > 0
    ensures Access(Take(lineCount, ByRecency(history)), lineCount, k) == Take(lineCount, ByRecency(history + [k]))
  {
    var r := ByRecency(history);
    ByRecencyDistinct(history);
    assert (history + [k])[..|history|] == history;
    assert ByRecency(history + [k]) == [k] + Without(r, k);
    if k in r {
      var j :| 0 <= j < |r| && r[j] == k;
      AccessHeld(r, lineCount, j);
    } else {
      WithoutAbsent(r, k);
    }
  }

  lemma AccessHeld(r: seq<CacheKey>, n: nat, j: nat)
    requires Distinct(r) && j < |r| && n > 0
    ensures Access(Take(n, r), n, r[j]) == Take(n, [r[j]] + Without(r, r[j]))
  {
    WithoutAt(r, j);
    if |r| > n {
      if j < n {
        AccessWithin(r, n, j);
      } else {
        AccessBeyond(r, n, j);
      }
    }
  }

  lemma AccessWithin(r: seq<CacheKey>, n: nat, j: nat)
    requires Distinct(r) && j < n < |r|
    ensures Access(r[..n], n, r[j]) == ([r[j]] + (r[..j] + r[j + 1..]))[..n]
  {
    assert r[..n][j] == r[j];
    WithoutAt(r[..n], j);
    TakeMoved(r, n, j);
  }

  lemma AccessBeyond(r: seq<CacheKey>, n: nat, j: nat)
    requires Distinct(r) && 0 < n <= j < |r|
    ensures Access(r[..n], n, r[j]) == ([r[j]] + (r[..j] + r[j + 1..]))[..n]
  {
    assert r[j] !in r[..n];
    TakePushed(r, n, j);
  }

  lemma TakeMoved(r: seq<CacheKey>, n: nat, j: nat)
    requires j < n < |r|
    ensures [r[j]] + (r[..n][..j] + r[..n][j + 1..]) == ([r[j]] + (r[..j] + r[j + 1..]))[..n]
  {
  }

  lemma TakePushed(r: seq<CacheKey>, n: nat, j: nat)
    requires 0 < n <= j < |r|
    ensures [r[j]] + r[..n][..n - 1] == ([r[j]] + (r[..j] + r[j + 1..]))[..n]
  {
  }

  // ----- the chained cache -----

  class ReadCacheElement {
    const key: CacheKey
    const line: seq<Byte>
    var next: ReadCacheElement?
    var prev: ReadCacheElement?

    constructor (key: CacheKey, line: seq<Byte>)
      ensures this.key == key && this.line == line && next == null && prev == null
    {
      this.key, this.line := key, line;
      next, prev := null, null;
    }
  }

  /** `order` is the chain: next and prev mirror each other and stop at its ends. */
  ghost predicate Linked(order: seq<ReadCacheElement>)
    reads order`next, order`prev
  {
    && (forall i {:trigger order[i].next} :: 0 <= i < |order| ==>
         order[i].next == if i + 1 < |order| then order[i + 1] else null)
    && (forall i {:trigger order[i].prev} :: 0 <= i < |order| ==>
         order[i].prev == if 0 < i then order[i - 1] else null)
  }

  function KeysOf(order: seq<ReadCacheElement>): seq<CacheKey> {
    seq(|order|, i requires 0 <= i < |order| => order[i].key)
  }

  /** Moving the element at `j` to the front is what an access to its key asks for. */
  lemma HitKeys(order: seq<ReadCacheElement>, j: nat, lineCount: nat)
    requires Distinct(KeysOf(order)) && j < |order| && lineCount > 0
    ensures KeysOf([order[j]] + (order[..j] + order[j + 1..])) == Access(KeysOf(order), lineCount, order[j].key)
  {
    WithoutAt(KeysOf(order), j);
    assert KeysOf(order)[j] == order[j].key;
    var front := [order[j]] + (order[..j] + order[j + 1..]);
    assert KeysOf(front) == [order[j].key] + (KeysOf(order)[..j] + KeysOf(order)[j + 1..]);
  }

  lemma MovedMembers(order: seq<ReadCacheElement>, j: nat)
    requires j < |order|
    ensures forall x :: x in [order[j]] + (order[..j] + order[j + 1..]) <==> x in order
  {
    assert order == order[..j] + [order[j]] + order[j + 1..];
  }

  lemma {:induction false} DistinctCardinality(s: seq<CacheKey>)
    requires Distinct(s)
    ensures |set x | x in s| == |s|
  {
    if s != [] {
      DistinctCardinality(s[1..]);
      assert (set x | x in s) == {s[0]} + (set x | x in s[1..]);
    }
  }

  class ReadCache {
    const lineSize: nat
    const lineCount: nat
    var readCache: map<CacheKey, ReadCacheElement>
    var mru: ReadCacheElement?
    var lru: ReadCacheElement?
    ghost var order: seq<ReadCacheElement>
    ghost var history: seq<CacheKey>

    ghost function Elements(): set<ReadCacheElement>
      reads `order
    {
      set e | e in order
    }

    /** The chain, its two ends and the distinctness of its elements. */
    ghost predicate Chained()
      reads `order, `mru, `lru, order`next, order`prev
    {
      && Distinct(order)
      && Linked(order)
      && (order == [] ==> mru == null && lru == null)
      && (order != [] ==> mru == order[0] && lru == order[|order| - 1])
    }

    /** The map names exactly the elements of the chain. */
    ghost predicate Indexed()
      reads `readCache, `order
    {
      && (forall k :: k in readCache ==> readCache[k] in order && readCache[k].key == k)
      && (forall e :: e in order ==> e.key in readCache && readCache[e.key] == e)
    }

    ghost predicate Valid()
      reads `readCache, `order, `mru, `lru, order`next, order`prev
    {
      && lineSize > 0 && lineCount > 0
      && Chained() && Indexed()
      && |order| <= lineCount
    }

    /** The cache holds the most recently accessed lines, and the chain has them in that order. */
    ghost predicate HoldsMostRecent()
      requires lineCount > 0
      reads `order, `history
    {
      KeysOf(order) == Take(lineCount, ByRecency(history))
    }

    lemma DistinctKeys()
      requires Chained() && Indexed()
      ensures Distinct(KeysOf(order)) && |readCache| == |order|
      ensures forall k :: k in readCache <==> k in KeysOf(order)
    {
      var keys := KeysOf(order);
      forall i, j | 0 <= i < j < |keys| ensures keys[i] != keys[j] {
        assert order[i] in order && order[j] in order;
      }
      forall k ensures k in readCache <==> k in keys {
        if k in readCache {
          var i :| 0 <= i < |order| && order[i] == readCache[k];
          assert keys[i] == k;
        }
        if i :| 0 <= i < |keys| && keys[i] == k {
          assert order[i] in order;
        }
      }
      DistinctCardinality(keys);
      assert readCache.Keys == set k | k in keys;
    }

    constructor (lineSize: nat, lineCount: nat)
      requires lineSize > 0 && lineCount > 0
      ensures Valid() && HoldsMostRecent() && order == [] && this.lineSize == lineSize && this.lineCount == lineCount
    {
      this.lineSize, this.lineCount := lineSize, lineCount;
      readCache, mru, lru := map[], null, null;
      order, history := [], [];
    }

    /** Takes `e`, which is not the most recently used element, out of the chain. */
    method Unchain(e: ReadCacheElement, ghost j: nat)
      requires Chained()
      requires 0 < j < |order| && order[j] == e
      modifies this`lru, this`order, order`next, order`prev
      ensures order == old(order)[..j] + old(order)[j + 1..]
      ensures Chained() && mru == old(mru)
    {
      if e == lru {
        UnchainLast(e, j);
      } else {
        UnchainMiddle(e, j);
      }
    }

    method UnchainLast(e: ReadCacheElement, ghost j: nat)
      requires Chained()
      requires 0 < j < |order| && order[j] == e && e == lru
      modifies this`lru, this`order, order`next
      ensures order == old(order)[..j] + old(order)[j + 1..]
      ensures Chained() && mru == old(mru)
    {
      lru := e.prev;
      lru.next := null;
      order := order[..j] + order[j + 1..];
    }

    method UnchainMiddle(e: ReadCacheElement, ghost j: nat)
      requires Chained()
      requires 0 < j < |order| && order[j] == e && e != lru
      modifies this`order, order`next, order`prev
      ensures order == old(order)[..j] + old(order)[j + 1..]
      ensures Chained() && mru == old(mru)
    {
      ghost var was := order;
      e.prev.next := e.next;
      e.next.prev := e.prev;
      order := order[..j] + order[j + 1..];
      assert |order| == |was| - 1;
      forall i | 0 <= i < |order| ensures order[i] == if i < j then was[i] else was[i + 1] {}
    }

    /** Puts `e` at the most recently used end. */
    method Chain(e: ReadCacheElement)
      requires Chained() && e !in order
      modifies this`mru, this`lru, this`order, order`prev, e`next, e`prev
      ensures order == [e] + old(order)
      ensures Chained()
    {
      e.next, e.prev := mru, null;
      if mru == null {
        lru := e;
      } else {
        mru.prev := e;
      }
      mru := e;
      order := [e] + order;
    }

    method MoveToFront(e: ReadCacheElement, ghost j: nat)
      requires Chained() && j < |order| && order[j] == e
      modifies this`mru, this`lru, this`order, order`next, order`prev
      ensures order == [e] + (old(order)[..j] + old(order)[j + 1..])
      ensures Chained()
    {
      if mru != e {
        ghost var was := order;
        Unchain(e, j);
        assert e !in order;
        Chain(e);
      }
    }

    /** Moves the element keyed `k` to the front of the chain. */
    method Touch(k: CacheKey) returns (e: ReadCacheElement)
      requires Valid() && k in readCache
      modifies this`mru, this`lru, this`order, order`next, order`prev
      ensures Valid() && e == readCache[k]
      ensures forall x :: x in order <==> x in old(order)
      ensures KeysOf(order) == Access(old(KeysOf(order)), lineCount, k)
    {
      e := readCache[k];
      ghost var j :| 0 <= j < |order| && order[j] == e;
      ghost var moved := [e] + (order[..j] + order[j + 1..]);
      assert KeysOf(moved) == Access(KeysOf(order), lineCount, k) by {
        DistinctKeys();
        HitKeys(order, j, lineCount);
      }
      assert forall x :: x in moved <==> x in order by {
        MovedMembers(order, j);
      }
      MoveToFront(e, j);
    }

    /** A hit: the element found becomes the most recently used. */
    method Hit(k: CacheKey) returns (e: ReadCacheElement)
      requires Valid() && HoldsMostRecent() && k in readCache
      modifies this`mru, this`lru, this`order, this`history, order`next, order`prev
      ensures Valid() && e == readCache[k]
      ensures forall x :: x in order <==> x in old(order)
      ensures HoldsMostRecent() && history == old(history) + [k]
    {
      AccessKeepsMostRecent(history, lineCount, k);
      e := Touch(k);
      history := history + [k];
    }

    /** Drops the least recently used element of a full cache. */
    method PurgeLRU()
      requires Valid() && |order| == lineCount
      modifies this`mru, this`lru, this`order, this`readCache, order`next
      ensures Valid() && order == old(order)[..|old(order)| - 1]
      ensures forall k :: k in readCache ==> k in old(readCache) && readCache[k] == old(readCache)[k]
    {
      ghost var was := order;
      readCache := readCache - {lru.key};
      UnchainLRU();
      assert was == order + [was[|was| - 1]];
    }

    /** Takes the least recently used element of a full cache off the chain. */
    method UnchainLRU()
      requires Chained() && |order| == lineCount > 0
      modifies this`mru, this`lru, this`order, order`next
      ensures Chained() && order == old(order)[..|old(order)| - 1]
    {
      if 1 == lineCount {
        mru, lru := null, null;
      } else {
        lru := lru.prev;
        lru.next := null;
      }
      order := order[..|order| - 1];
    }

    /** Leaves room for one more element, purging one if the cache is full. */
    method MakeRoom(ghost k: CacheKey)
      requires Valid() && k !in readCache
      modifies this`mru, this`lru, this`order, this`readCache, order`next
      ensures Valid() && |order| < lineCount && order <= old(order)
      ensures forall x :: x in readCache ==> x in old(readCache) && readCache[x] == old(readCache)[x]
      ensures [k] + KeysOf(order) == Access(old(KeysOf(order)), lineCount, k)
    {
      ghost var keys := KeysOf(order);
      assert |readCache| == |order| && k !in keys by {
        DistinctKeys();
      }
      if |readCache| >= lineCount {
        PurgeLRU();
        assert KeysOf(order) == keys[..|keys| - 1];
      }
    }

    /** A miss: the line just read goes in as the most recently used. */
    method Miss(k: CacheKey, line: seq<Byte>) returns (e: ReadCacheElement)
      requires Valid() && k !in readCache
      requires HoldsMostRecent()
      modifies this, order
      ensures Valid() && e.key == k && e.line == line
      ensures k in readCache && readCache[k] == e
      ensures forall x :: x in readCache && x != k ==> x in old(readCache) && readCache[x] == old(readCache)[x]
      ensures forall x :: x in order ==> x == e || x in old(order)
      ensures fresh(e)
      ensures HoldsMostRecent() && history == old(history) + [k]
    {
      AccessKeepsMostRecent(history, lineCount, k);
      e := Insert(k, line);
      history := history + [k];
    }

    method Insert(k: CacheKey, line: seq<Byte>) returns (e: ReadCacheElement)
      requires Valid() && k !in readCache
      modifies this`mru, this`lru, this`order, this`readCache, order
      ensures Valid() && e.key == k && e.line == line && fresh(e)
      ensures k in readCache && readCache[k] == e
      ensures forall x :: x in readCache && x != k ==> x in old(readCache) && readCache[x] == old(readCache)[x]
      ensures forall x :: x in order ==> x == e || x in old(order)
      ensures KeysOf(order) == Access(old(KeysOf(order)), lineCount, k)
    {
      MakeRoom(k);
      e := new ReadCacheElement(k, line);
      Admit(e);
    }

    method Admit(e: ReadCacheElement)
      requires Valid() && e !in order && e.key !in readCache && |order| < lineCount
      modifies this`mru, this`lru, this`order, this`readCache, order`prev, e`next, e`prev
      ensures Valid() && order == [e] + old(order) && readCache == old(readCache)[e.key := e]
      ensures KeysOf(order) == [e.key] + old(KeysOf(order))
    {
      readCache := readCache[e.key := e];
      Chain(e);
    }
  }
}

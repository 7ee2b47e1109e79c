/** The process-local authorization cache: a hash map into a doubly linked recency list. */
module AuthCache {
  import opened Wrappers
  import opened Forge
  import opened LinkedList
  import opened Sequences
  import CacheKey
  import Lru

  type CacheEntry = Lru.Entry<Authorization>

  datatype CreateError = BadLimits | NoSecret

  type Node = Element<CacheEntry>

  type Contents = Lru.Recency<Authorization>

  ghost predicate NoRepeats(nodes: seq<Node>) {
    forall i, j :: 0 <= i < j < |nodes| ==> nodes[i] != nodes[j]
  }

  /** The nodes carry these entries. */
  ghost predicate Carries(nodes: seq<Node>, contents: Contents)
    reads nodes`value
  {
    |contents| == |nodes| && forall i :: 0 <= i < |nodes| ==> nodes[i].value == Some(contents[i])
  }

  /** The map leads from each entry's key to its node, and from nothing else. */
  ghost predicate Indexes(items: map<string, Node>, nodes: seq<Node>, contents: Contents) {
    && |contents| == |nodes|
    && (forall i :: 0 <= i < |contents| ==> contents[i].key in items && items[contents[i].key] == nodes[i])
    && (forall k <- items :: Lru.Has(contents, k))
  }

  lemma IndexedDistinct(items: map<string, Node>, nodes: seq<Node>, contents: Contents)
    requires Indexes(items, nodes, contents) && NoRepeats(nodes)
    ensures Lru.Distinct(contents)
  {}

  /** A mapped node sits where the recency sequence has its key. */
  lemma Locate(items: map<string, Node>, nodes: seq<Node>, contents: Contents, key: string) returns (i: nat)
    requires Indexes(items, nodes, contents)
    ensures i == Lru.Find(contents, key) <= |nodes|
    ensures key in items <==> i < |nodes|
    ensures key in items ==> nodes[i] == items[key]
  {
    i := Lru.Find(contents, key);
    if key in items {
      var n :| 0 <= n < |contents| && contents[n].key == key;
    }
  }

  lemma IndexWithout(items: map<string, Node>, nodes: seq<Node>, contents: Contents, i: nat)
    requires Indexes(items, nodes, contents) && NoRepeats(nodes) && i < |nodes|
    ensures Indexes(items - {contents[i].key}, Without(nodes, i), Without(contents, i))
  {
    var items', rest := items - {contents[i].key}, Without(contents, i);
    IndexedDistinct(items, nodes, contents);
    forall k | k in items' ensures Lru.Has(rest, k) {
      var n :| 0 <= n < |contents| && contents[n].key == k;
      assert rest[if n < i then n else n - 1] == contents[n];
    }
  }

  lemma IndexPromoted(items: map<string, Node>, nodes: seq<Node>, contents: Contents, i: nat)
    requires Indexes(items, nodes, contents) && i < |nodes|
    ensures Indexes(items, [nodes[i]] + Without(nodes, i), [contents[i]] + Without(contents, i))
  {
    var moved := [contents[i]] + Without(contents, i);
    forall k | k in items ensures Lru.Has(moved, k) {
      var n :| 0 <= n < |contents| && contents[n].key == k;
      assert moved[if n == i then 0 else if n < i then n + 1 else n] == contents[n];
    }
  }

  lemma IndexExtended(items: map<string, Node>, nodes: seq<Node>, contents: Contents, e: Node, entry: CacheEntry)
    requires Indexes(items, nodes, contents) && entry.key !in items
    ensures Indexes(items[entry.key := e], [e] + nodes, [entry] + contents)
  {
    var longer := [entry] + contents;
    forall k | k in items[entry.key := e] ensures Lru.Has(longer, k) {
      if k == entry.key {
        assert longer[0].key == k;
      } else {
        var n :| 0 <= n < |contents| && contents[n].key == k;
        assert longer[n + 1] == contents[n];
      }
    }
  }

  lemma IndexOverwritten(items: map<string, Node>, nodes: seq<Node>, contents: Contents, i: nat, entry: CacheEntry)
    requires Indexes(items, nodes, contents) && i < |nodes| && entry.key == contents[i].key
    ensures Indexes(items, nodes, contents[i := entry])
  {
    forall k | k in items ensures Lru.Has(contents[i := entry], k) {
      var n :| 0 <= n < |contents| && contents[n].key == k;
      assert contents[i := entry][n].key == k;
    }
  }

  lemma CarriesMoved(nodes: seq<Node>, contents: Contents, i: nat)
    requires Carries(nodes, contents) && i < |nodes|
    ensures Carries(Without(nodes, i), Without(contents, i))
    ensures Carries([nodes[i]] + Without(nodes, i), [contents[i]] + Without(contents, i))
  {}

  /** What was put for one request is served to exactly the requests for the same token and path, as far
      as its text is unambiguous and the HMAC keeps the two apart. */
  lemma ServesSameRequestOnly(c: Contents, capacity: nat, mac: string -> string, a: Request, value: Authorization,
                              expiresAt: int, b: Request, now: int)
    requires Lru.Bounded(c, capacity) && capacity > 0 && now < expiresAt
    requires CacheKey.NoClash(mac, a, b) && !CacheKey.Ambiguous(a) && !Lru.Has(c, mac(CacheKey.Preimage(b)))
    ensures var after := Lru.AfterPut(c, capacity, Lru.Entry(mac(CacheKey.Preimage(a)), value, expiresAt));
            var answer := Lru.Answer(after, mac(CacheKey.Preimage(b)), now);
            answer == if CacheKey.SameRequest(a, b) then Some(value) else None
  {
    var key, other := mac(CacheKey.Preimage(a)), mac(CacheKey.Preimage(b));
    CacheKey.KeyIdentifies(mac, a, b);
    Lru.PutIsAnswered(c, capacity, Lru.Entry(key, value, expiresAt), now);
    Lru.PutMeaning(c, capacity, Lru.Entry(key, value, expiresAt));
    Lru.OthersOnly(c, key);
    hide CacheKey.Ambiguous, CacheKey.SameRequest, CacheKey.Preimage;
    var after := Lru.AfterPut(c, capacity, Lru.Entry(key, value, expiresAt));
    if key != other {
      assert forall e <- after :: e.key != other;
    }
  }

  class Cache {
    const capacity: nat
    const ttl: int
    const mac: string -> string     // HMAC under the per-process secret
    var items: map<string, Element<CacheEntry>>
    const lru: List<CacheEntry>
    ghost var contents: Contents   // the entries in recency order

    ghost predicate Linked()
      reads this, lru, lru.root, lru.nodes
    {
      && capacity > 0 && ttl > 0 && lru.Valid()
      && Carries(lru.nodes, contents) && Indexes(items, lru.nodes, contents)
    }

    ghost predicate Valid()
      reads this, lru, lru.root, lru.nodes
    {
      Linked() && |lru.nodes| <= capacity
    }

    constructor (capacity: nat, ttl: int, mac: string -> string)
      requires capacity > 0 && ttl > 0
      ensures Valid() && contents == [] && fresh(lru) && fresh(lru.root)
      ensures this.capacity == capacity && this.ttl == ttl && this.mac == mac
    {
      this.capacity := capacity;
      this.ttl := ttl;
      this.mac := mac;
      items := map[];
      contents := [];
      lru := new List<CacheEntry>();
    }

    /** The contents are a bounded recency sequence of distinct keys. */
    lemma ContentsBounded()
      requires Valid()
      ensures Lru.Bounded(contents, capacity)
    {
      IndexedDistinct(items, lru.nodes, contents);
    }

    method Get(r: Request, now: int) returns (value: Option<Authorization>)
      requires Valid()
      modifies this, lru, lru.root, lru.nodes
      ensures Valid() && forall j :: 0 <= j < |lru.nodes| ==> lru.nodes[j] in old(lru.nodes)
      ensures value == Lru.Answer(old(contents), mac(CacheKey.Preimage(r)), now)
      ensures contents == Lru.AfterGet(old(contents), mac(CacheKey.Preimage(r)), now)
    {
      var key := CacheKey.Key(mac, r);
      ghost var i := Locate(items, lru.nodes, contents, key);
      if key !in items {
        return None;
      }
      var element := items[key];
      if !(now < element.value.value.expiresAt) {
        Remove(Some(element), i);
        return None;
      }
      Promote(element, i);
      return Some(element.value.value.value);
    }

    method Put(r: Request, value: Authorization, now: int)
      requires Valid()
      modifies this, lru, lru.root, lru.nodes
      ensures Valid() && forall j :: 0 <= j < |lru.nodes| ==> lru.nodes[j] in old(lru.nodes) || fresh(lru.nodes[j])
      ensures contents
           == Lru.AfterPut(old(contents), capacity, Lru.Entry(mac(CacheKey.Preimage(r)), value, now + ttl))
    {
      hide Lru.Push;
      var key := CacheKey.Key(mac, r);
      var entry := Lru.Entry(key, value, now + ttl);
      ghost var i := Locate(items, lru.nodes, contents, key);
      if key in items {
        Refresh(items[key], entry, i);
      } else {
        Insert(entry);
      }
    }

    /** The rest of Put, for a key that is cached: overwrite in place and move to the front. */
    method Refresh(existing: Node, entry: CacheEntry, ghost i: nat)
      requires Linked() && i < |lru.nodes| && lru.nodes[i] == existing && entry.key == contents[i].key
      modifies existing`value, `contents, lru, lru.root`next, lru.root`prev, lru.nodes`next, lru.nodes`prev
      ensures Linked() && |lru.nodes| == old(|lru.nodes|)
      ensures forall j :: 0 <= j < |lru.nodes| ==> lru.nodes[j] in old(lru.nodes)
      ensures contents == [entry] + Without(old(contents), i)
    {
      Overwrite(existing, entry, i);
      assert Without(contents, i) == Without(old(contents), i);
      Promote(existing, i);
    }

    /** The rest of Put, for a key that is not cached: add, then drop the last element when over
        capacity. */
    method Insert(entry: CacheEntry)
      requires Valid() && entry.key !in items
      modifies this, lru, lru.root, lru.nodes
      ensures Valid() && forall j :: 0 <= j < |lru.nodes| ==> lru.nodes[j] in old(lru.nodes) || fresh(lru.nodes[j])
      ensures contents == Lru.Push(old(contents), capacity, entry)
    {
      Add(entry);
      if lru.len > capacity {
        EvictLast();
      }
    }

    method EvictLast()
      requires Linked() && lru.nodes != []
      modifies this, lru, lru.root`next, lru.root`prev, lru.nodes`next, lru.nodes`prev
      ensures Linked() && |lru.nodes| == old(|lru.nodes|) - 1
      ensures forall j :: 0 <= j < |lru.nodes| ==> lru.nodes[j] in old(lru.nodes)
      ensures contents == old(contents)[..old(|lru.nodes|) - 1]
    {
      var last := lru.Back();
      Remove(last, |lru.nodes| - 1);
    }

    /** The entry is overwritten in place, under the same key. */
    method Overwrite(element: Node, entry: CacheEntry, ghost i: nat)
      requires Linked() && i < |lru.nodes| && lru.nodes[i] == element && entry.key == contents[i].key
      modifies element`value, `contents
      ensures Linked() && contents == old(contents)[i := entry]
    {
      IndexOverwritten(items, lru.nodes, contents, i, entry);
      assert NoRepeats(lru.nodes);
      element.value := Some(entry);
      contents := contents[i := entry];
      forall j | 0 <= j < |lru.nodes| ensures lru.nodes[j].value == Some(contents[j]) {
        assert j != i ==> lru.nodes[j] != lru.nodes[i];
      }
    }

    /** MoveToFront on the recency list. */
    method Promote(element: Node, ghost i: nat)
      requires Linked() && i < |lru.nodes| && lru.nodes[i] == element
      modifies `contents, lru, lru.root`next, lru.root`prev, lru.nodes`next, lru.nodes`prev
      ensures Linked() && |lru.nodes| == old(|lru.nodes|)
      ensures forall j :: 0 <= j < |lru.nodes| ==> lru.nodes[j] in old(lru.nodes)
      ensures contents == [old(contents)[i]] + Without(old(contents), i)
    {
      IndexPromoted(items, lru.nodes, contents, i);
      CarriesMoved(lru.nodes, contents, i);
      lru.MoveToFront(element, i);
      contents := [contents[i]] + Without(contents, i);
    }

    /** A new element in front and in the map. */
    method Add(entry: CacheEntry)
      requires Linked() && entry.key !in items
      modifies this, lru, lru.root`next, lru.root`prev, lru.nodes`next, lru.nodes`prev
      ensures Linked() && |lru.nodes| == old(|lru.nodes|) + 1
      ensures forall j :: 0 <= j < |lru.nodes| ==> lru.nodes[j] in old(lru.nodes) || fresh(lru.nodes[j])
      ensures contents == [entry] + old(contents)
    {
      ghost var before := lru.nodes;
      var element := lru.PushFront(entry);
      IndexExtended(items, before, contents, element, entry);
      items := items[entry.key := element];
      contents := [entry] + contents;
    }

    /** remove: nothing to do without an element, otherwise out of the map under the element's own key,
        then out of the list. */
    method Remove(element: Option<Node>, ghost i: nat)
      requires Linked() && (element.Some? ==> i < |lru.nodes| && lru.nodes[i] == element.value)
      modifies this, lru, lru.root`next, lru.root`prev, lru.nodes`next, lru.nodes`prev
      ensures Linked() && |lru.nodes| == old(|lru.nodes|) - (if element.Some? then 1 else 0)
      ensures forall j :: 0 <= j < |lru.nodes| ==> lru.nodes[j] in old(lru.nodes)
      ensures contents == if element.Some? then Without(old(contents), i) else old(contents)
    {
      if element.None? {
        return;
      }
      var e := element.value;
      IndexWithout(items, lru.nodes, contents, i);
      CarriesMoved(lru.nodes, contents, i);
      assert e.value == Some(contents[i]);
      items := items - {e.value.value.key};
      contents := Without(contents, i);
      lru.Remove(e, i);
    }
  }

  /** New: a cache comes out exactly for positive limits, once the random secret is there; `mac` is
      None when the system's randomness fails. */
  method New(capacity: int, ttl: int, mac: Option<string -> string>) returns (r: Result<Cache, CreateError>)
    ensures r == Failure(BadLimits) <==> capacity <= 0 || ttl <= 0
    ensures r == Failure(NoSecret) <==> capacity > 0 && ttl > 0 && mac == None
    ensures r.Success? ==>
              && fresh(r.value) && fresh(r.value.lru) && fresh(r.value.lru.root)
              && r.value.Valid() && r.value.contents == []
              && r.value.capacity == capacity && r.value.ttl == ttl && mac == Some(r.value.mac)
  {
    if capacity <= 0 || ttl <= 0 {
      return Failure(BadLimits);
    }
    if mac.None? {
      return Failure(NoSecret);
    }
    var cache := new Cache(capacity, ttl, mac.value);
    return Success(cache);
  }
}

/** The recency-ordered sequence that the authorization cache implements: most recently used
    entry first, distinct keys, every entry with its own expiry. Times are nanoseconds. */
module Lru {
  import opened Sequences
  import opened Wrappers

  datatype Entry<V> = Entry(key: string, value: V, expiresAt: int)

  type Recency<V> = seq<Entry<V>>

  datatype Op<V> = Get(key: string, now: int) | Put(key: string, value: V, now: int)

  ghost predicate Distinct<V>(c: Recency<V>) {
    forall i, j :: 0 <= i < j < |c| ==> c[i].key != c[j].key
  }

  ghost predicate Bounded<V>(c: Recency<V>, capacity: nat) {
    Distinct(c) && |c| <= capacity
  }

  ghost predicate Has<V>(c: Recency<V>, key: string) {
    exists i :: 0 <= i < |c| && c[i].key == key
  }

  /** The position of a key, or the length when it is absent. */
  function Find<V>(c: Recency<V>, key: string): (i: nat)
    ensures i <= |c|
    ensures i < |c| ==> c[i].key == key
    ensures forall j :: 0 <= j < i ==> c[j].key != key
  {
    if c == [] || c[0].key == key then 0 else 1 + Find(c[1..], key)
  }

  // ----- the two operations

  /** What Get answers: a value only for a present entry whose expiry is still ahead. */
  function Answer<V>(c: Recency<V>, key: string, now: int): Option<V> {
    var i := Find(c, key);
    if i < |c| && now < c[i].expiresAt then Some(c[i].value) else None
  }

  function AfterGet<V>(c: Recency<V>, key: string, now: int): Recency<V> {
    var i := Find(c, key);
    if i == |c| then c
    else if now < c[i].expiresAt then [c[i]] + Without(c, i)
    else Without(c, i)
  }

  /** A new entry in front; the last entry goes when the capacity is exceeded. */
  function Push<V>(c: Recency<V>, capacity: nat, newest: Entry<V>): Recency<V> {
    if |c| + 1 > capacity then ([newest] + c)[..|c|] else [newest] + c
  }

  function AfterPut<V>(c: Recency<V>, capacity: nat, newest: Entry<V>): Recency<V> {
    var i := Find(c, newest.key);
    if i < |c| then [newest] + Without(c, i) else Push(c, capacity, newest)
  }

  function Apply<V>(c: Recency<V>, capacity: nat, ttl: int, op: Op<V>): Recency<V> {
    match op
    case Get(key, now) => AfterGet(c, key, now)
    case Put(key, value, now) => AfterPut(c, capacity, Entry(key, value, now + ttl))
  }

  function Run<V>(c: Recency<V>, capacity: nat, ttl: int, ops: seq<Op<V>>): Recency<V>
    decreases |ops|
  {
    if ops == [] then c else Run(Apply(c, capacity, ttl, ops[0]), capacity, ttl, ops[1..])
  }

  // ----- every operation keeps the shape

  lemma FindUnique<V>(c: Recency<V>, i: nat)
    requires Distinct(c) && i < |c|
    ensures Find(c, c[i].key) == i
  {}

  lemma WithoutDistinct<V>(c: Recency<V>, i: nat)
    requires Distinct(c) && i < |c|
    ensures Distinct(Without(c, i)) && !Has(Without(c, i), c[i].key)
  {}

  lemma ConsDistinct<V>(e: Entry<V>, c: Recency<V>)
    requires Distinct(c) && !Has(c, e.key)
    ensures Distinct([e] + c)
  {}

  /** Distinct keys and the capacity bound survive every operation, and a Put never evicts the
      entry it has just written: that entry is first. */
  lemma ApplyKeepsBounded<V>(c: Recency<V>, capacity: nat, ttl: int, op: Op<V>)
    requires Bounded(c, capacity) && capacity > 0
    ensures Bounded(Apply(c, capacity, ttl, op), capacity)
    ensures op.Put? ==>
              var d := Apply(c, capacity, ttl, op);
              d != [] && d[0] == Entry(op.key, op.value, op.now + ttl)
  {
    var i := Find(c, op.key);
    if i < |c| {
      WithoutDistinct(c, i);
      ConsDistinct(if op.Put? then Entry(op.key, op.value, op.now + ttl) else c[i], Without(c, i));
    } else if op.Put? {
      ConsDistinct(Entry(op.key, op.value, op.now + ttl), c);
    }
  }

  /** What was just put is answered until it expires. */
  lemma PutIsAnswered<V>(c: Recency<V>, capacity: nat, newest: Entry<V>, now: int)
    requires Bounded(c, capacity) && capacity > 0 && now < newest.expiresAt
    ensures Answer(AfterPut(c, capacity, newest), newest.key, now) == Some(newest.value)
  {
    ApplyKeepsBounded(c, capacity, 0, Put(newest.key, newest.value, newest.expiresAt));
    FindUnique(AfterPut(c, capacity, newest), 0);
  }

  lemma {:induction false} RunKeepsBounded<V>(c: Recency<V>, capacity: nat, ttl: int, ops: seq<Op<V>>)
    requires Bounded(c, capacity) && capacity > 0
    ensures Bounded(Run(c, capacity, ttl, ops), capacity)
    decreases |ops|
  {
    if ops != [] {
      ApplyKeepsBounded(c, capacity, ttl, ops[0]);
      RunKeepsBounded(Apply(c, capacity, ttl, ops[0]), capacity, ttl, ops[1..]);
    }
  }

  // ----- what the operations mean, without positions

  /** The entries under other keys, in their order. */
  function Others<V>(c: Recency<V>, key: string): Recency<V> {
    if c == [] then []
    else if c[0].key == key then Others(c[1..], key)
    else [c[0]] + Others(c[1..], key)
  }

  lemma {:induction false} NoOthers<V>(c: Recency<V>, key: string)
    requires forall i :: 0 <= i < |c| ==> c[i].key != key
    ensures Others(c, key) == c
  {
    if c != [] {
      NoOthers(c[1..], key);
    }
  }

  lemma {:induction false} OthersAround<V>(c: Recency<V>, key: string, i: nat)
    requires i < |c| && c[i].key == key && forall j :: 0 <= j < |c| && j != i ==> c[j].key != key
    ensures Others(c, key) == Without(c, i)
  {
    if i == 0 {
      NoOthers(c[1..], key);
    } else {
      OthersAround(c[1..], key, i - 1);
      assert Without(c, i) == [c[0]] + Without(c[1..], i - 1);
    }
  }

  lemma OthersIsWithout<V>(c: Recency<V>, key: string)
    requires Distinct(c)
    ensures Others(c, key) == if Find(c, key) < |c| then Without(c, Find(c, key)) else c
  {
    if Find(c, key) < |c| {
      OthersAround(c, key, Find(c, key));
    } else {
      NoOthers(c, key);
    }
  }

  lemma {:induction false} OthersOnly<V>(c: Recency<V>, key: string)
    ensures forall e <- Others(c, key) :: e in c && e.key != key
  {
    if c != [] {
      OthersOnly(c[1..], key);
    }
  }

  /** A Get leaves the other entries alone, keeps its own key exactly when it answers, and then has
      that entry in front, unchanged: a hit does not extend the expiry. */
  lemma GetMeaning<V>(c: Recency<V>, key: string, now: int)
    requires Distinct(c)
    ensures var d := AfterGet(c, key, now);
            match Answer(c, key, now)
            case None => d == Others(c, key) && forall e <- c :: e.key == key ==> e.expiresAt <= now
            case Some(value) =>
              exists e <- c :: e.key == key && e.value == value && now < e.expiresAt && d == [e] + Others(c, key)
  {
    OthersIsWithout(c, key);
    var i := Find(c, key);
    forall e | e in c && e.key == key ensures i < |c| && e == c[i] {
      var j :| 0 <= j < |c| && c[j] == e;
      FindUnique(c, j);
    }
    if i < |c| {
      assert c[i] in c;
    }
  }

  /** A Put leaves its own entry in front, followed by the other entries in their order, as many as
      the capacity allows: only the least recently used one can go. */
  lemma PutMeaning<V>(c: Recency<V>, capacity: nat, newest: Entry<V>)
    requires Bounded(c, capacity) && capacity > 0
    ensures var others := Others(c, newest.key);
            AfterPut(c, capacity, newest) == [newest] + others[..if |others| < capacity then |others| else capacity - 1]
  {
    OthersIsWithout(c, newest.key);
  }

  // ----- inclusion: a larger cache never loses a hit

  /** `small` is `big` itself (j past the end) or `big` with the one entry at j left out. */
  ghost predicate Lacks<V>(small: Recency<V>, big: Recency<V>, j: nat) {
    if j < |big| then small == Without(big, j) else small == big
  }

  /** Where a key present in both sits in the smaller sequence. */
  lemma FindShifted<V>(small: Recency<V>, big: Recency<V>, j: nat, i: nat)
    requires Distinct(big) && Lacks(small, big, j) && i < |big| && i != j
    ensures Find(small, big[i].key) == if i < j then i else i - 1
  {
    var k := if i < j then i else i - 1;
    assert small[k] == big[i];
    forall m | 0 <= m < k ensures small[m].key != big[i].key {
      assert small[m] == if m < j then big[m] else big[m + 1];
    }
  }

  lemma FindAbsent<V>(small: Recency<V>, big: Recency<V>, j: nat, key: string)
    requires Distinct(big) && Lacks(small, big, j)
    requires Find(big, key) == |big| || Find(big, key) == j
    ensures Find(small, key) == |small|
  {
    forall k | 0 <= k < |small| ensures small[k].key != key {
      FindUnique(big, if k < j then k else k + 1);
    }
  }

  /** Dropping the same entry from both sequences keeps them one entry apart. */
  lemma WithoutKeepsLacks<V>(small: Recency<V>, big: Recency<V>, j: nat, i: nat) returns (k: nat)
    requires Lacks(small, big, j) && i < |big| && i != j
    ensures var m := if i < j then i else i - 1;
            m < |small| && small[m] == big[i] && Lacks(Without(small, m), Without(big, i), k)
  {
    if j >= |big| {
      k := |big|;
    } else if i < j {
      WithoutTwice(big, i, j);
      k := j - 1;
    } else {
      WithoutTwice(big, j, i);
      k := j;
    }
  }

  lemma ConsKeepsLacks<V>(e: Entry<V>, small: Recency<V>, big: Recency<V>, j: nat)
    requires Lacks(small, big, j)
    ensures Lacks([e] + small, [e] + big, j + 1)
  {}

  lemma GetKeepsLacks<V>(small: Recency<V>, big: Recency<V>, j: nat, key: string, now: int)
      returns (k: nat)
    requires Distinct(big) && Lacks(small, big, j)
    ensures Lacks(AfterGet(small, key, now), AfterGet(big, key, now), k)
    ensures Answer(small, key, now).Some? ==> Answer(big, key, now) == Answer(small, key, now)
  {
    var i := Find(big, key);
    if i == |big| {
      FindAbsent(small, big, j, key);
      k := j;
    } else if i == j {
      FindAbsent(small, big, j, key);
      k := if now < big[i].expiresAt then 0 else |big|;
      assert ([big[i]] + Without(big, i))[1..] == small;
    } else {
      FindShifted(small, big, j, i);
      k := WithoutKeepsLacks(small, big, j, i);
      if now < big[i].expiresAt {
        ConsKeepsLacks(big[i], Without(small, Find(small, key)), Without(big, i), k);
        k := k + 1;
      }
    }
  }

  lemma PushKeepsLacks<V>(small: Recency<V>, big: Recency<V>, j: nat, capacity: nat, newest: Entry<V>)
      returns (k: nat)
    requires |small| <= capacity && |big| <= capacity + 1 && Lacks(small, big, j) && capacity > 0
    ensures Lacks(Push(small, capacity, newest), Push(big, capacity + 1, newest), k)
  {
    ConsKeepsLacks(newest, small, big, j);
    if |small| < capacity {
      k := j + 1;
    } else if |big| == capacity {
      k := |big|;
    } else {
      k := if j == capacity then capacity else j + 1;
    }
  }

  lemma PutKeepsLacks<V>(small: Recency<V>, big: Recency<V>, j: nat, capacity: nat, newest: Entry<V>)
      returns (k: nat)
    requires Bounded(small, capacity) && Bounded(big, capacity + 1) && Lacks(small, big, j) && capacity > 0
    ensures Lacks(AfterPut(small, capacity, newest), AfterPut(big, capacity + 1, newest), k)
  {
    var i := Find(big, newest.key);
    if i == |big| {
      FindAbsent(small, big, j, newest.key);
      k := PushKeepsLacks(small, big, j, capacity, newest);
    } else if i == j {
      // Only the larger cache held the key; both now start with it.
      FindAbsent(small, big, j, newest.key);
      assert AfterPut(big, capacity + 1, newest) == [newest] + small;
      k := if |small| == capacity then capacity else |big|;
    } else {
      FindShifted(small, big, j, i);
      k := WithoutKeepsLacks(small, big, j, i);
      ConsKeepsLacks(newest, Without(small, Find(small, newest.key)), Without(big, i), k);
      k := k + 1;
    }
  }

  lemma ApplyKeepsLacks<V>(small: Recency<V>, big: Recency<V>, j: nat, capacity: nat, ttl: int, op: Op<V>)
      returns (k: nat)
    requires Bounded(small, capacity) && Bounded(big, capacity + 1) && Lacks(small, big, j) && capacity > 0
    ensures Lacks(Apply(small, capacity, ttl, op), Apply(big, capacity + 1, ttl, op), k)
  {
    hide AfterGet, AfterPut, Answer, Lacks;
    match op
    case Get(key, now) => k := GetKeepsLacks(small, big, j, key, now);
    case Put(key, value, now) => k := PutKeepsLacks(small, big, j, capacity, Entry(key, value, now + ttl));
  }

  /** Run side by side on one trace, the cache of capacity C is the cache of capacity C + 1 with at
      most one entry left out; every shared entry has the same value, expiry and relative order. */
  lemma {:induction false} OneExtraEntry<V>(small: Recency<V>, big: Recency<V>, j: nat, capacity: nat, ttl: int,
                                             ops: seq<Op<V>>)
      returns (k: nat)
    requires Bounded(small, capacity) && Bounded(big, capacity + 1) && Lacks(small, big, j) && capacity > 0
    ensures Lacks(Run(small, capacity, ttl, ops), Run(big, capacity + 1, ttl, ops), k)
    decreases |ops|
  {
    if ops == [] {
      k := j;
    } else {
      var next := ApplyKeepsLacks(small, big, j, capacity, ttl, ops[0]);
      ApplyKeepsBounded(small, capacity, ttl, ops[0]);
      ApplyKeepsBounded(big, capacity + 1, ttl, ops[0]);
      k := OneExtraEntry(Apply(small, capacity, ttl, ops[0]), Apply(big, capacity + 1, ttl, ops[0]), next,
                         capacity, ttl, ops[1..]);
    }
  }

  /** Raising the capacity, by any amount, never turns a hit into a miss: after any trace from the
      empty cache, whatever the smaller cache answers, the larger one answers too. */
  lemma {:induction false} LargerCacheKeepsHits<V>(capacity: nat, larger: nat, ttl: int, ops: seq<Op<V>>,
                                                    key: string, now: int)
    requires 0 < capacity <= larger
    requires Answer(Run([], capacity, ttl, ops), key, now).Some?
    ensures Answer(Run([], larger, ttl, ops), key, now) == Answer(Run([], capacity, ttl, ops), key, now)
    decreases larger
  {
    if capacity < larger {
      LargerCacheKeepsHits(capacity, larger - 1, ttl, ops, key, now);
      var j := OneExtraEntry([], [], 0, larger - 1, ttl, ops);
      RunKeepsBounded([], larger, ttl, ops);
      var _ := GetKeepsLacks(Run([], larger - 1, ttl, ops), Run([], larger, ttl, ops), j, key, now);
    }
  }

  // ----- retention

  /** An operation moves its key to the front: every Put, and every Get that hits. */
  ghost predicate Touches<V>(c: Recency<V>, op: Op<V>) {
    op.Put? || Answer(c, op.key, op.now).Some?
  }

  /** The keys other than `key` that a trace puts or hits. */
  ghost function OthersTouched<V>(c: Recency<V>, capacity: nat, ttl: int, ops: seq<Op<V>>, key: string): set<string>
    decreases |ops|
  {
    if ops == [] then {}
    else
      (if Touches(c, ops[0]) && ops[0].key != key then {ops[0].key} else {})
      + OthersTouched(Apply(c, capacity, ttl, ops[0]), capacity, ttl, ops[1..], key)
  }

  ghost function KeysBefore<V>(c: Recency<V>, i: nat): set<string>
    requires i <= |c|
  {
    set j | 0 <= j < i :: c[j].key
  }

  lemma {:induction false} CountBefore<V>(c: Recency<V>, i: nat)
    requires Distinct(c) && i <= |c|
    ensures |KeysBefore(c, i)| == i
  {
    if i > 0 {
      CountBefore(c, i - 1);
      assert c[i - 1].key !in KeysBefore(c, i - 1);
      assert KeysBefore(c, i) == KeysBefore(c, i - 1) + {c[i - 1].key};
    }
  }

  /** Entry i of `c` is entry k of `d`, and only keys of `front` precede it there. */
  ghost predicate Follows<V>(c: Recency<V>, i: nat, d: Recency<V>, k: nat, front: set<string>) {
    i < |c| && k < |d| && d[k] == c[i] && KeysBefore(d, k) <= front
  }

  lemma DropFollows<V>(c: Recency<V>, i: nat, m: nat, front: set<string>) returns (k: nat)
    requires i < |c| && m < |c| && m != i && KeysBefore(c, i) <= front
    ensures Follows(c, i, Without(c, m), k, front)
  {
    k := if m < i then i - 1 else i;
    forall j | 0 <= j < k ensures Without(c, m)[j].key in front {
      assert c[if j < m then j else j + 1].key in KeysBefore(c, i);
    }
  }

  lemma ConsFollows<V>(c: Recency<V>, i: nat, d: Recency<V>, k: nat, front: set<string>, e: Entry<V>)
    requires Follows(c, i, d, k, front)
    ensures Follows(c, i, [e] + d, k + 1, front + {e.key})
  {
    forall j | 0 <= j < k + 1 ensures ([e] + d)[j].key in front + {e.key} {
      if j > 0 {
        assert d[j - 1].key in KeysBefore(d, k);
      }
    }
  }

  lemma PushFollows<V>(c: Recency<V>, i: nat, capacity: nat, front: set<string>, e: Entry<V>)
    requires Bounded(c, capacity) && i < |c| && !Has(c, e.key) && KeysBefore(c, i) <= front
    requires |front + {e.key}| < capacity
    ensures Follows(c, i, Push(c, capacity, e), i + 1, front + {e.key})
  {
    ConsFollows(c, i, c, i, front, e);
    ConsDistinct(e, c);
    var longer := [e] + c;
    CountBefore(longer, i + 1);
    SubsetSize(KeysBefore(longer, i + 1), front + {e.key});
    assert KeysBefore(Push(c, capacity, e), i + 1) == KeysBefore(longer, i + 1);
  }

  /** One operation on another key: the watched entry stays, unchanged, as long as the keys in
      front of it and the touched one together number less than the capacity. */
  lemma OtherKeyStep<V>(c: Recency<V>, capacity: nat, ttl: int, op: Op<V>, i: nat, front: set<string>)
      returns (k: nat)
    requires Bounded(c, capacity) && i < |c| && op.key != c[i].key
    requires KeysBefore(c, i) <= front
    requires |front + (if Touches(c, op) then {op.key} else {})| < capacity
    ensures Follows(c, i, Apply(c, capacity, ttl, op), k, front + (if Touches(c, op) then {op.key} else {}))
  {
    var m := Find(c, op.key);
    if m < |c| {
      k := DropFollows(c, i, m, front);
      if Touches(c, op) {
        ConsFollows(c, i, Without(c, m), k, front, if op.Put? then Entry(op.key, op.value, op.now + ttl) else c[m]);
        k := k + 1;
      }
    } else if op.Put? {
      PushFollows(c, i, capacity, front, Entry(op.key, op.value, op.now + ttl));
      k := i + 1;
    } else {
      k := i;
    }
  }

  /** The retention guarantee. An entry that has just been put or hit is still answered at `now`,
      provided it has not expired, no clock reading so far exceeds `now`, it was not put again, and
      fewer than `capacity` other distinct keys were put or hit in between. */
  lemma {:induction false} Retention<V>(c: Recency<V>, capacity: nat, ttl: int, ops: seq<Op<V>>, now: int)
    requires Bounded(c, capacity) && c != [] && now < c[0].expiresAt
    requires forall op <- ops :: op.now <= now
    requires forall op <- ops :: op.key == c[0].key ==> op.Get?
    requires |OthersTouched(c, capacity, ttl, ops, c[0].key)| < capacity
    ensures Answer(Run(c, capacity, ttl, ops), c[0].key, now) == Some(c[0].value)
  {
    RetentionFrom(c, capacity, ttl, ops, now, 0, {});
  }

  lemma {:induction false} RetentionFrom<V>(c: Recency<V>, capacity: nat, ttl: int, ops: seq<Op<V>>, now: int,
                                             i: nat, front: set<string>)
    requires Bounded(c, capacity) && i < |c| && now < c[i].expiresAt
    requires forall op <- ops :: op.now <= now
    requires forall op <- ops :: op.key == c[i].key ==> op.Get?
    requires KeysBefore(c, i) <= front
    requires |front + OthersTouched(c, capacity, ttl, ops, c[i].key)| < capacity
    ensures Answer(Run(c, capacity, ttl, ops), c[i].key, now) == Some(c[i].value)
    decreases |ops|
  {
    FindUnique(c, i);
    if ops != [] {
      var op, d := ops[0], Apply(c, capacity, ttl, ops[0]);
      assert op in ops;
      ApplyKeepsBounded(c, capacity, ttl, op);
      var rest := OthersTouched(d, capacity, ttl, ops[1..], c[i].key);
      if op.key == c[i].key {
        SubsetSize(rest, front + OthersTouched(c, capacity, ttl, ops, c[i].key));
        RetentionFrom(d, capacity, ttl, ops[1..], now, 0, {});
      } else {
        var more := if Touches(c, op) then {op.key} else {};
        assert (front + more) + rest == front + OthersTouched(c, capacity, ttl, ops, c[i].key);
        SubsetSize(front + more, (front + more) + rest);
        var k := OtherKeyStep(c, capacity, ttl, op, i, front);
        RetentionFrom(d, capacity, ttl, ops[1..], now, k, front + more);
      }
    }
  }

  lemma {:induction false} RunConcat<V>(c: Recency<V>, capacity: nat, ttl: int, first: seq<Op<V>>, second: seq<Op<V>>)
    ensures Run(c, capacity, ttl, first + second) == Run(Run(c, capacity, ttl, first), capacity, ttl, second)
    decreases |first|
  {
    if first == [] {
      assert first + second == second;
    } else {
      assert (first + second)[0] == first[0] && (first + second)[1..] == first[1..] + second;
      RunConcat(Apply(c, capacity, ttl, first[0]), capacity, ttl, first[1..], second);
    }
  }

  ghost predicate NonDecreasing<V>(ops: seq<Op<V>>, now: int) {
    && (forall i, j :: 0 <= i < j < |ops| ==> ops[i].now <= ops[j].now)
    && (ops != [] ==> ops[|ops| - 1].now <= now)
  }

  /** Retention over a whole trace `earlier + [op] + later` from the empty cache: if `op` put or hit
      its key and nothing later put it again, the key is answered with the value it had then for as
      long as that entry is unexpired and fewer than `capacity` other distinct keys have been put or
      hit since. */
  lemma RetentionInTrace<V>(capacity: nat, ttl: int, earlier: seq<Op<V>>, op: Op<V>, later: seq<Op<V>>, now: int)
    requires capacity > 0 && NonDecreasing(later, now)
    requires Touches(Run([], capacity, ttl, earlier), op)
    requires forall o <- later :: o.key == op.key ==> o.Get?
    requires |OthersTouched(Run([], capacity, ttl, earlier + [op]), capacity, ttl, later, op.key)| < capacity
    requires var c := Run([], capacity, ttl, earlier + [op]);
             c != [] ==> now < c[0].expiresAt
    ensures var c := Run([], capacity, ttl, earlier + [op]);
            && c != []
            && Answer(Run([], capacity, ttl, earlier + [op] + later), op.key, now) == Some(c[0].value)
  {
    var before, c := Run([], capacity, ttl, earlier), Run([], capacity, ttl, earlier + [op]);
    RunConcat([], capacity, ttl, earlier, [op]);
    RunKeepsBounded([], capacity, ttl, earlier);
    assert c == Apply(before, capacity, ttl, op);
    ApplyKeepsBounded(before, capacity, ttl, op);
    RunConcat([], capacity, ttl, earlier + [op], later);
    forall o | o in later ensures o.now <= now {
      var j :| 0 <= j < |later| && later[j] == o;
      assert later[j].now <= later[|later| - 1].now;
    }
    Retention(c, capacity, ttl, later, now);
  }

  // ----- the guarantee is sharp

  /** No Get of the trace finds an expired entry. */
  ghost predicate NoExpiry<V>(c: Recency<V>, capacity: nat, ttl: int, ops: seq<Op<V>>)
    decreases |ops|
  {
    ops != [] ==>
      && (ops[0].Get? && Has(c, ops[0].key) ==> Touches(c, ops[0]))
      && NoExpiry(Apply(c, capacity, ttl, ops[0]), capacity, ttl, ops[1..])
  }

  lemma {:induction false} AbsentStays<V>(c: Recency<V>, capacity: nat, ttl: int, ops: seq<Op<V>>, key: string)
    requires !Has(c, key) && forall op <- ops :: op.key != key
    ensures !Has(Run(c, capacity, ttl, ops), key)
    decreases |ops|
  {
    if ops != [] {
      assert ops[0] in ops;
      AbsentStays(Apply(c, capacity, ttl, ops[0]), capacity, ttl, ops[1..], key);
    }
  }

  /** Every key that precedes the watched entry still does after another key is touched, and so
      does the touched one. */
  lemma TouchCounts<V>(c: Recency<V>, capacity: nat, ttl: int, op: Op<V>, i: nat, k: nat)
    requires Bounded(c, capacity) && i < |c| && op.key != c[i].key && Touches(c, op)
    requires var d := Apply(c, capacity, ttl, op); k < |d| && d[k].key == c[i].key
    ensures KeysBefore(c, i) + {op.key} <= KeysBefore(Apply(c, capacity, ttl, op), k)
  {
    var d := Apply(c, capacity, ttl, op);
    var m := Find(c, op.key);
    Shifted(c, capacity, ttl, op);
    ApplyKeepsBounded(c, capacity, ttl, op);
    assert k == if m < i then i else i + 1;
    forall j | 0 <= j < i ensures c[j].key in KeysBefore(d, k) {
      assert j != m ==> d[if m < j then j else j + 1] == c[j];
      assert c[j].key == d[if j == m then 0 else if m < j then j else j + 1].key;
    }
    assert d[0].key in KeysBefore(d, k);
  }

  /** Where an operation that touches its key puts that key and every other entry it keeps. */
  lemma Shifted<V>(c: Recency<V>, capacity: nat, ttl: int, op: Op<V>)
    requires Touches(c, op)
    ensures var d, m := Apply(c, capacity, ttl, op), Find(c, op.key);
            && |d| >= |c| && (d != [] ==> d[0].key == op.key)
            && (forall j :: 0 <= j < |c| && j < m && j + 1 < |d| ==> d[j + 1] == c[j])
            && (forall j :: 0 <= j < |c| && j > m ==> d[j] == c[j])
  {
    var m := Find(c, op.key);
    if m < |c| {
      PromoteShift(c, m, if op.Put? then Entry(op.key, op.value, op.now + ttl) else c[m]);
    } else {
      PushShift(c, capacity, Entry(op.key, op.value, op.now + ttl));
    }
    hide Push, Without;
  }

  lemma PushShift<V>(c: Recency<V>, capacity: nat, e: Entry<V>)
    ensures var d := Push(c, capacity, e);
            && |d| >= |c| && (d != [] ==> d[0] == e)
            && forall j :: 0 <= j < |c| && j + 1 < |d| ==> d[j + 1] == c[j]
  {}

  lemma PromoteShift<V>(c: Recency<V>, m: nat, e: Entry<V>)
    requires m < |c|
    ensures var d := [e] + Without(c, m);
            && |d| == |c| && d[0] == e
            && (forall j :: 0 <= j < m ==> d[j + 1] == c[j])
            && (forall j :: m < j < |c| ==> d[j] == c[j])
  {
    hide Without;
  }

  lemma {:induction false} EvictedAtCapacity<V>(c: Recency<V>, capacity: nat, ttl: int, ops: seq<Op<V>>, i: nat)
    requires Bounded(c, capacity) && i < |c|
    requires (forall op <- ops :: op.key != c[i].key) && NoExpiry(c, capacity, ttl, ops)
    requires |KeysBefore(c, i) + OthersTouched(c, capacity, ttl, ops, c[i].key)| >= capacity
    ensures !Has(Run(c, capacity, ttl, ops), c[i].key)
    decreases |ops|
  {
    CountBefore(c, i);
    assert KeysBefore(c, i) + {} == KeysBefore(c, i);
    if ops != [] {
      var op, d := ops[0], Apply(c, capacity, ttl, ops[0]);
      assert op in ops;
      ApplyKeepsBounded(c, capacity, ttl, op);
      var rest := OthersTouched(d, capacity, ttl, ops[1..], c[i].key);
      if !Has(d, c[i].key) {
        AbsentStays(d, capacity, ttl, ops[1..], c[i].key);
      } else if Touches(c, op) {
        var k :| 0 <= k < |d| && d[k].key == c[i].key;
        TouchCounts(c, capacity, ttl, op, i, k);
        SubsetSize(KeysBefore(c, i) + ({op.key} + rest), KeysBefore(d, k) + rest);
        EvictedAtCapacity(d, capacity, ttl, ops[1..], k);
      } else {
        assert {} + rest == rest;
        EvictedAtCapacity(d, capacity, ttl, ops[1..], i);
      }
    }
  }

  /** While nothing expires, an untouched key survives exactly as long as fewer than `capacity`
      other distinct keys are put or hit. */
  lemma RetentionIsExact<V>(c: Recency<V>, capacity: nat, ttl: int, ops: seq<Op<V>>)
    requires Bounded(c, capacity) && c != []
    requires (forall op <- ops :: op.key != c[0].key) && NoExpiry(c, capacity, ttl, ops)
    ensures Has(Run(c, capacity, ttl, ops), c[0].key)
       <==> |OthersTouched(c, capacity, ttl, ops, c[0].key)| < capacity
  {
    var others := OthersTouched(c, capacity, ttl, ops, c[0].key);
    assert KeysBefore(c, 0) + others == others;
    if |others| >= capacity {
      EvictedAtCapacity(c, capacity, ttl, ops, 0);
    } else {
      KeptBelowCapacity(c, capacity, ttl, ops, 0, {});
    }
  }

  lemma {:induction false} KeptBelowCapacity<V>(c: Recency<V>, capacity: nat, ttl: int, ops: seq<Op<V>>,
                                                 i: nat, front: set<string>)
    requires Bounded(c, capacity) && i < |c| && KeysBefore(c, i) <= front
    requires forall op <- ops :: op.key != c[i].key
    requires |front + OthersTouched(c, capacity, ttl, ops, c[i].key)| < capacity
    ensures Has(Run(c, capacity, ttl, ops), c[i].key)
    decreases |ops|
  {
    if ops != [] {
      var op, d := ops[0], Apply(c, capacity, ttl, ops[0]);
      assert op in ops;
      ApplyKeepsBounded(c, capacity, ttl, op);
      var rest := OthersTouched(d, capacity, ttl, ops[1..], c[i].key);
      var more := if Touches(c, op) then {op.key} else {};
      assert (front + more) + rest == front + OthersTouched(c, capacity, ttl, ops, c[i].key);
      SubsetSize(front + more, (front + more) + rest);
      var k := OtherKeyStep(c, capacity, ttl, op, i, front);
      KeptBelowCapacity(d, capacity, ttl, ops[1..], k, front + more);
    }
  }
}

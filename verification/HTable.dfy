/** The linear-probing hash table of htable.c.

    The first part is the table as a value: what probing finds, what inserting, rehashing
    and popping make of the slots.  The class at the end runs the loops of the source on an
    array and is proved to compute exactly these functions. */
module HTable {
  import opened Wrappers

  const HTABLE_MIN_SIZE := 4

  /** struct htable_pair; a pair with a NULL key is Empty. */
  datatype Slot<+K, +V> = Empty | Full(key: K, val: V)

  // ---------------------------------------------------------------- cyclic positions

  /** The index after i, wrapping around. */
  function NextIndex(i: nat, n: nat): (r: nat)
    requires i < n
    ensures r < n
  {
    if i + 1 == n then 0 else i + 1
  }

  /** How many steps forward from i to j. */
  function Distance(i: nat, j: nat, n: nat): (d: nat)
    requires i < n && j < n
    ensures d < n
  {
    if i <= j then j - i else j - i + n
  }

  /** p comes before j on the way from i. */
  predicate Before(i: nat, p: nat, j: nat) {
    if i <= j then i <= p < j else p >= i || p < j
  }

  /** Where the search for a key starts.  hash_fun is handed the capacity and has to answer
      with an index below it. */
  function Start<K>(hash: (K, nat) -> nat, k: K, n: nat): (i: nat)
    requires n > 0
    ensures i < n
  {
    hash(k, n) % n
  }

  // ---------------------------------------------------------------- probing

  /** A probe stops at an empty slot and, when it looks for a key, at that key. */
  predicate Stops<K(==), V>(slot: Slot<K, V>, k: Option<K>) {
    slot.Empty? || k == Some(slot.key)
  }

  /** The index where a probe of so many steps stops. */
  function Scan<K(==), V>(slots: seq<Slot<K, V>>, k: Option<K>, i: nat, steps: nat): (r: Option<nat>)
    requires i < |slots|
    ensures r.Some? ==> r.value < |slots|
    decreases steps
  {
    if steps == 0 then None
    else if Stops(slots[i], k) then Some(i)
    else Scan(slots, k, NextIndex(i, |slots|), steps - 1)
  }

  /** A probe stops at the first slot on its way where it can. */
  lemma {:induction false} ScanFirst<K, V>(slots: seq<Slot<K, V>>, k: Option<K>, i: nat, steps: nat)
    requires i < |slots| && steps <= |slots|
    ensures match Scan(slots, k, i, steps)
            case Some(j) =>
              Stops(slots[j], k) && forall p :: 0 <= p < |slots| && Before(i, p, j) ==> !Stops(slots[p], k)
            case None =>
              forall p :: 0 <= p < |slots| && Distance(i, p, |slots|) < steps ==> !Stops(slots[p], k)
    decreases steps
  {
    if steps != 0 && !Stops(slots[i], k) {
      ScanFirst(slots, k, NextIndex(i, |slots|), steps - 1);
    }
  }

  /** And that determines it. */
  lemma ScanIs<K, V>(slots: seq<Slot<K, V>>, k: Option<K>, i: nat, j: nat)
    requires i < |slots| && j < |slots|
    requires Stops(slots[j], k) && forall p :: 0 <= p < |slots| && Before(i, p, j) ==> !Stops(slots[p], k)
    ensures Scan(slots, k, i, |slots|) == Some(j)
  {
    ScanFirst(slots, k, i, |slots|);
  }

  /** The slot htable_get_internal finds. */
  function Find<K(==), V>(slots: seq<Slot<K, V>>, hash: (K, nat) -> nat, k: K): (r: Option<nat>)
    requires slots != []
    ensures r.Some? ==> r.value < |slots| && slots[r.value].Full?
  {
    match Scan(slots, Some(k), Start(hash, k, |slots|), |slots|)
    case Some(j) => if slots[j].Full? then Some(j) else None
    case None => None
  }

  /** htable_get; None for NULL. */
  function Lookup<K(==), V>(slots: seq<Slot<K, V>>, hash: (K, nat) -> nat, k: K): Option<V>
    requires slots != []
  {
    match Find(slots, hash, k)
    case Some(j) => Some(slots[j].val)
    case None => None
  }

  /** The slots that htable_insert_internal leaves. */
  function Insert<K(==), V>(slots: seq<Slot<K, V>>, hash: (K, nat) -> nat, k: K, v: V): (r: seq<Slot<K, V>>)
    requires slots != []
    ensures |r| == |slots|
  {
    match Scan(slots, None, Start(hash, k, |slots|), |slots|)
    case Some(j) => slots[j := Full(k, v)]
    case None => slots
  }

  // ---------------------------------------------------------------- the probe paths

  predicate Has<K(==), V>(slots: seq<Slot<K, V>>, k: K) {
    exists j :: 0 <= j < |slots| && slots[j].Full? && slots[j].key == k
  }

  /** No entry is separated by an empty slot from where the search for its key starts. */
  ghost predicate Compact<K, V>(slots: seq<Slot<K, V>>, hash: (K, nat) -> nat) {
    forall j, p :: (0 <= j < |slots| && 0 <= p < |slots| && slots[j].Full?
                    && Before(Start(hash, slots[j].key, |slots|), p, j)) ==> slots[p].Full?
  }

  /** In a compact table every key that is there is found. */
  lemma FindComplete<K, V>(slots: seq<Slot<K, V>>, hash: (K, nat) -> nat, k: K)
    requires slots != [] && Compact(slots, hash)
    ensures Find(slots, hash, k).None? <==> !Has(slots, k)
    ensures Find(slots, hash, k).Some? ==> slots[Find(slots, hash, k).value].key == k
  {
    ScanFirst(slots, Some(k), Start(hash, k, |slots|), |slots|);
  }

  lemma CompactFinds<K, V>(slots: seq<Slot<K, V>>, hash: (K, nat) -> nat, k: K)
    requires slots != []
    ensures Compact(slots, hash) ==> (Find(slots, hash, k).None? <==> !Has(slots, k))
  {
    if Compact(slots, hash) {
      FindComplete(slots, hash, k);
    }
  }

  predicate HasEmpty<K, V>(slots: seq<Slot<K, V>>) {
    exists j :: 0 <= j < |slots| && slots[j].Empty?
  }

  /** Inserting fills one empty slot and keeps the table compact. */
  lemma InsertFills<K, V>(slots: seq<Slot<K, V>>, hash: (K, nat) -> nat, k: K, v: V)
    requires slots != [] && HasEmpty(slots)
    ensures var r := Insert(slots, hash, k, v);
            && (exists j :: 0 <= j < |slots| && slots[j].Empty? && r == slots[j := Full(k, v)])
            && (Compact(slots, hash) ==> Compact(r, hash))
  {
    ScanFirst(slots, None, Start(hash, k, |slots|), |slots|);
  }

  /** The entry for a key is not changed by putting another one: the oldest of a block of
      equal keys is found until the next rehash. */
  lemma FindAfterInsert<K, V>(slots: seq<Slot<K, V>>, hash: (K, nat) -> nat, k: K, v: V, k2: K)
    requires slots != [] && HasEmpty(slots) && Compact(slots, hash)
    ensures var r := Insert(slots, hash, k, v);
            Lookup(r, hash, k2) == if k2 == k && !Has(slots, k) then Some(v) else Lookup(slots, hash, k2)
  {
    hide Compact, Scan;
    var n := |slots|;
    var r := Insert(slots, hash, k, v);
    InsertFills(slots, hash, k, v);
    FindComplete(slots, hash, k2);
    FindComplete(r, hash, k2);
    if Find(slots, hash, k2).Some? {
      FoundStays(slots, hash, k2, Start(hash, k, n), Full(k, v));
    } else if k2 == k {
      FreshFound(slots, hash, k, v);
    }
  }

  lemma FoundStays<K, V>(slots: seq<Slot<K, V>>, hash: (K, nat) -> nat, k: K, i: nat, s: Slot<K, V>)
    requires i < |slots| && Find(slots, hash, k).Some?
    requires Scan(slots, None, i, |slots|).Some?
    ensures Find(slots[Scan(slots, None, i, |slots|).value := s], hash, k) == Find(slots, hash, k)
  {
    hide Scan;
    var start := Start(hash, k, |slots|);
    ScanFirst(slots, Some(k), start, |slots|);
    ScanFirst(slots, None, i, |slots|);
    ScanIs(slots[Scan(slots, None, i, |slots|).value := s], Some(k), start, Find(slots, hash, k).value);
  }

  lemma FreshFound<K, V>(slots: seq<Slot<K, V>>, hash: (K, nat) -> nat, k: K, v: V)
    requires slots != [] && HasEmpty(slots) && !Has(slots, k)
    ensures Lookup(Insert(slots, hash, k, v), hash, k) == Some(v)
  {
    hide Scan;
    var start := Start(hash, k, |slots|);
    ScanFirst(slots, None, start, |slots|);
    ScanIs(Insert(slots, hash, k, v), Some(k), start, Scan(slots, None, start, |slots|).value);
  }

  // ---------------------------------------------------------------- contents

  /** The entries, with their multiplicity. */
  ghost function Contents<K, V>(slots: seq<Slot<K, V>>): (m: multiset<Slot<K, V>>)
    ensures Empty !in m
    ensures |m| + multiset(slots)[Empty] == |slots|
  {
    multiset(slots)[Empty := 0]
  }

  lemma ContentsUpdate<K, V>(slots: seq<Slot<K, V>>, j: nat, s: Slot<K, V>)
    requires j < |slots|
    ensures Contents(slots[j := s]) + (if slots[j].Full? then multiset{slots[j]} else multiset{})
            == Contents(slots) + (if s.Full? then multiset{s} else multiset{})
  {
    assert multiset(slots[j := s]) == multiset(slots) - multiset{slots[j]} + multiset{s};
  }

  lemma HasContents<K, V>(slots: seq<Slot<K, V>>, k: K)
    ensures Has(slots, k) <==> exists s <- Contents(slots) :: s.key == k
  {
    if Has(slots, k) {
      var j :| 0 <= j < |slots| && slots[j].Full? && slots[j].key == k;
      assert slots[j] in multiset(slots);
    }
  }

  lemma FewerThanSlots<K, V>(slots: seq<Slot<K, V>>)
    requires |Contents(slots)| < |slots|
    ensures HasEmpty(slots)
  {
    assert Empty in multiset(slots);
  }

  lemma InsertContents<K, V>(slots: seq<Slot<K, V>>, hash: (K, nat) -> nat, k: K, v: V)
    requires |Contents(slots)| < |slots|
    ensures Contents(Insert(slots, hash, k, v)) == Contents(slots) + multiset{Full(k, v)}
  {
    FewerThanSlots(slots);
    InsertFills(slots, hash, k, v);
    var j :| 0 <= j < |slots| && slots[j].Empty? && Insert(slots, hash, k, v) == slots[j := Full(k, v)];
    ContentsUpdate(slots, j, Full(k, v));
  }

  // ---------------------------------------------------------------- rehashing

  function EmptySlots<K, V>(n: nat): seq<Slot<K, V>> {
    seq(n, i => Empty)
  }

  lemma {:induction false} EmptyContents<K, V>(n: nat)
    ensures Contents(EmptySlots<K, V>(n)) == multiset{}
    ensures forall hash: (K, nat) -> nat :: Compact(EmptySlots<K, V>(n), hash)
  {
    forall s | s in multiset(EmptySlots<K, V>(n))
      ensures s == Empty
    {
      assert s in EmptySlots<K, V>(n);
    }
  }

  /** The entries from index i on put into another array of slots. */
  function Moved<K(==), V>(slots: seq<Slot<K, V>>, hash: (K, nat) -> nat, i: nat, target: seq<Slot<K, V>>)
      : (r: seq<Slot<K, V>>)
    requires i <= |slots| && target != []
    ensures |r| == |target|
    decreases |slots| - i
  {
    if i == |slots| then target
    else Moved(slots, hash, i + 1,
               if slots[i].Full? then Insert(target, hash, slots[i].key, slots[i].val) else target)
  }

  /** The slots that htable_realloc makes. */
  function Rehash<K(==), V>(slots: seq<Slot<K, V>>, hash: (K, nat) -> nat, n: nat): (r: seq<Slot<K, V>>)
    requires n > 0
    ensures |r| == n
  {
    Moved(slots, hash, 0, EmptySlots(n))
  }

  lemma ContentsTail<K, V>(slots: seq<Slot<K, V>>, i: nat)
    requires i < |slots|
    ensures Contents(slots[i..])
            == (if slots[i].Full? then multiset{slots[i]} else multiset{}) + Contents(slots[i + 1..])
  {
    assert slots[i..] == [slots[i]] + slots[i + 1..];
  }

  lemma {:induction false} MovedKeeps<K, V>(slots: seq<Slot<K, V>>, hash: (K, nat) -> nat, i: nat,
                                            target: seq<Slot<K, V>>)
    requires i <= |slots| && target != []
    requires |Contents(target)| + |slots| - i < |target|
    requires Compact(target, hash)
    ensures var r := Moved(slots, hash, i, target);
            Contents(r) == Contents(target) + Contents(slots[i..]) && Compact(r, hash)
    decreases |slots| - i
  {
    hide Contents, Compact, Insert;
    if i < |slots| {
      ContentsTail(slots, i);
      if slots[i].Full? {
        FewerThanSlots(target);
        InsertContents(target, hash, slots[i].key, slots[i].val);
        InsertFills(target, hash, slots[i].key, slots[i].val);
        MovedKeeps(slots, hash, i + 1, Insert(target, hash, slots[i].key, slots[i].val));
      } else {
        MovedKeeps(slots, hash, i + 1, target);
      }
    } else {
      NoContents(slots[i..]);
    }
  }

  lemma NoContents<K, V>(slots: seq<Slot<K, V>>)
    requires slots == []
    ensures Contents(slots) == multiset{}
  {
  }

  /** Rehashing keeps the entries, and makes a table compact even if it was not. */
  lemma RehashKeeps<K, V>(slots: seq<Slot<K, V>>, hash: (K, nat) -> nat, n: nat)
    requires |slots| < n
    ensures Contents(Rehash(slots, hash, n)) == Contents(slots)
    ensures Compact(Rehash(slots, hash, n), hash)
  {
    hide Contents, Compact;
    EmptyContents<K, V>(n);
    MovedKeeps(slots, hash, 0, EmptySlots(n));
    assert slots[0..] == slots;
  }

  // ---------------------------------------------------------------- the table

  /** elem and used; the capacity is the number of slots. */
  datatype Table<+K, +V> = Table(slots: seq<Slot<K, V>>, used: int)

  /** Less than half of the slots are in use, and `used` counts them. */
  ghost predicate Sized<K, V>(t: Table<K, V>) {
    |t.slots| >= HTABLE_MIN_SIZE && t.used == |Contents(t.slots)| && t.used < |t.slots| / 2
  }

  function Fresh<K, V>(n: nat): Table<K, V> {
    Table(EmptySlots(n), 0)
  }

  /** htable_put of a key and a value that are not NULL. */
  function Put<K(==), V>(t: Table<K, V>, hash: (K, nat) -> nat, k: K, v: V): Table<K, V>
    requires t.slots != []
  {
    var slots := if t.used + 1 >= |t.slots| / 2 then Rehash(t.slots, hash, |t.slots| * 2) else t.slots;
    Table(Insert(slots, hash, k, v), t.used + 1)
  }

  /** A put adds one entry, keeps the table at most half full and keeps it compact. */
  lemma PutAdds<K, V>(t: Table<K, V>, hash: (K, nat) -> nat, k: K, v: V)
    requires Sized(t)
    ensures var r := Put(t, hash, k, v);
            && Sized(r) && Contents(r.slots) == Contents(t.slots) + multiset{Full(k, v)}
            && (Compact(t.slots, hash) ==> Compact(r.slots, hash))
  {
    hide Contents, Compact, Insert, Rehash;
    if t.used + 1 >= |t.slots| / 2 {
      RehashKeeps(t.slots, hash, |t.slots| * 2);
      InsertInto(Rehash(t.slots, hash, |t.slots| * 2), hash, k, v);
    } else {
      InsertInto(t.slots, hash, k, v);
    }
  }

  /** The slots that a put inserts into have an empty one among them. */
  lemma PutHasRoom<K, V>(t: Table<K, V>, hash: (K, nat) -> nat)
    requires Sized(t)
    ensures t.slots != [] && HasEmpty(t.slots) && HasEmpty(Rehash(t.slots, hash, |t.slots| * 2))
  {
    hide Contents, Compact, Rehash;
    RehashKeeps(t.slots, hash, |t.slots| * 2);
    FewerThanSlots(t.slots);
    FewerThanSlots(Rehash(t.slots, hash, |t.slots| * 2));
  }

  lemma InsertInto<K, V>(slots: seq<Slot<K, V>>, hash: (K, nat) -> nat, k: K, v: V)
    requires |Contents(slots)| < |slots|
    ensures var r := Insert(slots, hash, k, v);
            Contents(r) == Contents(slots) + multiset{Full(k, v)} && (Compact(slots, hash) ==> Compact(r, hash))
  {
    hide Contents, Compact, Insert;
    FewerThanSlots(slots);
    InsertContents(slots, hash, k, v);
    InsertFills(slots, hash, k, v);
  }

  /** A sequence of puts. */
  function PutAll<K(==), V>(t: Table<K, V>, hash: (K, nat) -> nat, pairs: seq<(K, V)>): (r: Table<K, V>)
    requires t.slots != []
    ensures r.slots != []
    decreases |pairs|
  {
    if pairs == [] then t
    else
      var last := |pairs| - 1;
      var before := PutAll(t, hash, pairs[..last]);
      Put(before, hash, pairs[last].0, pairs[last].1)
  }

  lemma NothingPut<K, V>(t: Table<K, V>, hash: (K, nat) -> nat)
    requires t.slots != []
    ensures PutAll(t, hash, []) == t
  {
  }

  lemma PutLast<K, V>(t: Table<K, V>, hash: (K, nat) -> nat, pairs: seq<(K, V)>, p: (K, V))
    requires t.slots != []
    ensures PutAll(t, hash, pairs + [p]) == Put(PutAll(t, hash, pairs), hash, p.0, p.1)
  {
    assert (pairs + [p])[..|pairs|] == pairs;
  }

  ghost function Entries<K, V>(pairs: seq<(K, V)>): multiset<Slot<K, V>>
    decreases |pairs|
  {
    if pairs == [] then multiset{}
    else
      var last := |pairs| - 1;
      Entries(pairs[..last]) + multiset{Full(pairs[last].0, pairs[last].1)}
  }

  lemma {:induction false} EntriesAre<K, V>(pairs: seq<(K, V)>, s: Slot<K, V>)
    ensures s in Entries(pairs) <==> s.Full? && (s.key, s.val) in pairs
    decreases |pairs|
  {
    if pairs != [] {
      var last := |pairs| - 1;
      EntriesAre(pairs[..last], s);
      assert pairs == pairs[..last] + [pairs[last]];
    }
  }

  /** Whatever is put in whatever order, with any number of rehashes, the table holds exactly
      that. */
  lemma {:induction false} PutAllAdds<K, V>(hash: (K, nat) -> nat, n: nat, pairs: seq<(K, V)>)
    requires n >= HTABLE_MIN_SIZE
    ensures var r := PutAll(Fresh(n), hash, pairs);
            Sized(r) && Compact(r.slots, hash) && Contents(r.slots) == Entries(pairs)
    decreases |pairs|
  {
    hide Contents, Compact, Put;
    EmptyContents<K, V>(n);
    if pairs != [] {
      var last := |pairs| - 1;
      PutAllAdds(hash, n, pairs[..last]);
      PutAdds(PutAll(Fresh(n), hash, pairs[..last]), hash, pairs[last].0, pairs[last].1);
    }
  }

  /** c is n doubled some number of times. */
  predicate IsDoubling(n: nat, c: nat)
    decreases c
  {
    c == n || (c > n && c % 2 == 0 && IsDoubling(n, c / 2))
  }

  /** The table grows by doubling, and no sooner than it has to: after any puts its capacity
      is the initial one, or a doubling of it that at least a quarter of as many entries are
      in; and less than half of it is used. */
  lemma {:induction false} CapacityAfterPuts<K, V>(hash: (K, nat) -> nat, n: nat, pairs: seq<(K, V)>)
    requires n >= HTABLE_MIN_SIZE
    ensures var t := PutAll(Fresh(n), hash, pairs); var c := |t.slots|;
            && t.used == |pairs| && IsDoubling(n, c)
            && |pairs| < c / 2 && (c == n || |pairs| >= c / 4)
    decreases |pairs|
  {
    hide Insert, Rehash;
    if pairs == [] {
      NothingPut(Fresh<K, V>(n), hash);
    } else {
      var before := pairs[..|pairs| - 1];
      CapacityAfterPuts(hash, n, before);
      var c := |PutAll(Fresh<K, V>(n), hash, before).slots|;
      assert IsDoubling(n, 2 * c);
    }
  }

  predicate DistinctKeys<K(==), V>(pairs: seq<(K, V)>) {
    forall i, j :: 0 <= i < j < |pairs| ==> pairs[i].0 != pairs[j].0
  }

  /** After any sequence of puts, htable_get answers NULL exactly for the keys that were not
      put, and for any other key a value that was put under it; when no key was put twice,
      the one value. */
  lemma PutsThenGet<K, V>(hash: (K, nat) -> nat, n: nat, pairs: seq<(K, V)>, k: K)
    requires n >= HTABLE_MIN_SIZE
    ensures var r := Lookup(PutAll(Fresh(n), hash, pairs).slots, hash, k);
            && (r.None? <==> forall p <- pairs :: p.0 != k)
            && (r.Some? ==> (k, r.value) in pairs)
            && (DistinctKeys(pairs) ==> forall p <- pairs :: p.0 == k ==> r == Some(p.1))
  {
    hide Contents, Compact;
    var slots := PutAll(Fresh(n), hash, pairs).slots;
    PutAllAdds(hash, n, pairs);
    FindComplete(slots, hash, k);
    HasContents(slots, k);
    forall s: Slot<K, V>
      ensures s in Contents(slots) <==> s.Full? && (s.key, s.val) in pairs
    {
      EntriesAre(pairs, s);
    }
    forall p | p in pairs && p.0 == k
      ensures Full(p.0, p.1) in Contents(slots)
    {
    }
    if Find(slots, hash, k).Some? {
      SlotInContents(slots, Find(slots, hash, k).value);
    }
  }

  lemma SlotInContents<K, V>(slots: seq<Slot<K, V>>, j: nat)
    requires j < |slots| && slots[j].Full?
    ensures slots[j] in Contents(slots)
  {
  }

  // ---------------------------------------------------------------- popping

  /** The slots, and the hole that is left to be cleared. */
  datatype Shifted<+K, +V> = Shifted(slots: seq<Slot<K, V>>, hole: nat)

  /** The loop of htable_pop: from index i to the next empty slot, every entry with the key
      is moved to the hole, which then is where it was. */
  function Shift<K(==), V>(slots: seq<Slot<K, V>>, k: K, hole: nat, i: nat, steps: nat): (r: Shifted<K, V>)
    requires hole < |slots| && i < |slots| && slots[hole].Full? && slots[hole].key == k
    ensures |r.slots| == |slots| && r.hole < |slots| && r.slots[r.hole].Full? && r.slots[r.hole].key == k
    decreases steps
  {
    if steps == 0 || slots[i].Empty? then Shifted(slots, hole)
    else if slots[i].key == k then Shift(slots[hole := slots[i]], k, i, NextIndex(i, |slots|), steps - 1)
    else Shift(slots, k, hole, NextIndex(i, |slots|), steps - 1)
  }

  lemma FindKey<K, V>(slots: seq<Slot<K, V>>, hash: (K, nat) -> nat, k: K)
    requires slots != []
    ensures Find(slots, hash, k).Some? ==> slots[Find(slots, hash, k).value].key == k
  {
    ScanFirst(slots, Some(k), Start(hash, k, |slots|), |slots|);
  }

  /** htable_pop: the table it leaves, the entry it hands out and the slot it clears. */
  datatype Popped<+K, +V> =
    | NotFound
    | Removed(table: Table<K, V>, found: Slot<K, V>, cleared: nat)

  function Pop<K(==), V>(t: Table<K, V>, hash: (K, nat) -> nat, k: K): Popped<K, V>
    requires t.slots != []
  {
    match Find(t.slots, hash, k)
    case None => NotFound
    case Some(h) =>
      FindKey(t.slots, hash, k);
      var r := Shift(t.slots, k, h, NextIndex(h, |t.slots|), |t.slots|);
      Removed(Table(r.slots[r.hole := Empty], t.used - 1), r.slots[r.hole], r.hole)
  }

  /** Only entries with the popped key move; the entry handed out was in the slot that is
      cleared. */
  lemma {:induction false} ShiftMoves<K, V>(slots: seq<Slot<K, V>>, k: K, hole: nat, i: nat, steps: nat, e: nat)
    requires hole < |slots| && i < |slots| && slots[hole].Full? && slots[hole].key == k
    requires e < |slots| && slots[e].Empty? && !Before(i, hole, e)
    ensures var r := Shift(slots, k, hole, i, steps);
            && r.slots[r.hole] == slots[r.hole] && (r.hole == hole || Before(i, r.hole, e))
            && (forall p :: 0 <= p < |slots| ==> r.slots[p].Empty? == slots[p].Empty?)
            && (forall p :: 0 <= p < |slots| && slots[p].Full? ==> r.slots[p].key == slots[p].key)
            && (forall p :: 0 <= p < |slots| && slots[p].Full? && slots[p].key != k ==> r.slots[p] == slots[p])
    decreases steps
  {
    if steps != 0 && slots[i].Full? {
      if slots[i].key == k {
        ShiftMoves(slots[hole := slots[i]], k, i, NextIndex(i, |slots|), steps - 1, e);
      } else {
        ShiftMoves(slots, k, hole, NextIndex(i, |slots|), steps - 1, e);
      }
    }
  }

  lemma SameRest<T>(a: multiset<T>, moved: multiset<T>, all: multiset<T>, b: multiset<T>, x: T, y: T)
    requires a + multiset{x} == moved && moved + multiset{y} == all + multiset{x} && b + multiset{y} == all
    ensures a == b
  {
    assert a + multiset{x} + multiset{y} == b + multiset{y} + multiset{x};
    assert a == (a + multiset{x} + multiset{y}) - multiset{x, y};
    assert b == (b + multiset{y} + multiset{x}) - multiset{x, y};
  }

  /** An entry that moves into the hole leaves the same others behind. */
  lemma HoleMoves<K, V>(slots: seq<Slot<K, V>>, hole: nat, i: nat)
    requires hole < |slots| && i < |slots| && slots[hole].Full? && slots[i].Full?
    ensures Contents(slots[hole := slots[i]][i := Empty]) == Contents(slots[hole := Empty])
  {
    hide Contents;
    var moved := slots[hole := slots[i]];
    ContentsUpdate(moved, i, Empty);
    ContentsUpdate(slots, hole, Empty);
    ContentsUpdate(slots, hole, slots[i]);
    SameRest(Contents(moved[i := Empty]), Contents(moved), Contents(slots), Contents(slots[hole := Empty]),
             slots[i], slots[hole]);
  }

  /** What is gone in the end is the entry that was in the hole at the start. */
  lemma {:induction false} ShiftContents<K, V>(slots: seq<Slot<K, V>>, k: K, hole: nat, i: nat, steps: nat, e: nat)
    requires hole < |slots| && i < |slots| && slots[hole].Full? && slots[hole].key == k
    requires e < |slots| && slots[e].Empty? && !Before(i, hole, e)
    ensures var r := Shift(slots, k, hole, i, steps);
            Contents(r.slots[r.hole := Empty]) == Contents(slots[hole := Empty])
    decreases steps
  {
    hide Contents;
    if steps != 0 && slots[i].Full? {
      if slots[i].key == k {
        ShiftContents(slots[hole := slots[i]], k, i, NextIndex(i, |slots|), steps - 1, e);
        HoleMoves(slots, hole, i);
      } else {
        ShiftContents(slots, k, hole, NextIndex(i, |slots|), steps - 1, e);
      }
    }
  }

  /** The exact effect of a pop.  The entry that leaves the table is the one htable_get would
      have found; the one handed out was in the slot that is cleared. */
  lemma PopRemoves<K, V>(t: Table<K, V>, hash: (K, nat) -> nat, k: K)
    requires Sized(t)
    ensures match Find(t.slots, hash, k)
            case None => Pop(t, hash, k) == NotFound
            case Some(h) =>
              var r := Pop(t, hash, k);
              && r.Removed? && r.cleared < |t.slots|
              && r.found == t.slots[r.cleared] && r.found.Full? && r.found.key == k
              && Contents(t.slots) == Contents(r.table.slots) + multiset{t.slots[h]}
              && Sized(r.table)
  {
    hide Contents, Shift;
    var slots := t.slots;
    FindKey(slots, hash, k);
    match Find(slots, hash, k)
    case None =>
    case Some(h) =>
      var i := NextIndex(h, |slots|);
      var r := Shift(slots, k, h, i, |slots|);
      FewerThanSlots(slots);
      var e :| 0 <= e < |slots| && slots[e].Empty?;
      ShiftMoves(slots, k, h, i, |slots|, e);
      ShiftContents(slots, k, h, i, |slots|, e);
      ContentsUpdate(slots, h, Empty);
  }

  /** When no other entry has the key, they are one and the same, only its slot changes, and
      the key is gone. */
  lemma PopUnique<K, V>(t: Table<K, V>, hash: (K, nat) -> nat, k: K)
    requires Sized(t) && Find(t.slots, hash, k).Some?
    requires forall p :: 0 <= p < |t.slots| && t.slots[p].Full? && t.slots[p].key == k
                         ==> p == Find(t.slots, hash, k).value
    ensures var h, r := Find(t.slots, hash, k).value, Pop(t, hash, k);
            && r.Removed? && r.cleared == h && r.found == t.slots[h] && r.table.slots == t.slots[h := Empty]
            && Lookup(r.table.slots, hash, k) == None
  {
    hide Contents, Shift, Scan;
    var slots := t.slots;
    var h := Find(slots, hash, k).value;
    var i := NextIndex(h, |slots|);
    FindKey(slots, hash, k);
    FewerThanSlots(slots);
    var e :| 0 <= e < |slots| && slots[e].Empty?;
    ShiftMoves(slots, k, h, i, |slots|, e);
    var r := Shift(slots, k, h, i, |slots|);
    assert r.slots[h := Empty] == slots[h := Empty];
    FindKey(slots[h := Empty], hash, k);
  }

  /** A pop changes the lookup of another key exactly when the cleared slot lies on the probe
      path to that key's entry; that entry is then no longer found. */
  lemma PopLookup<K, V>(t: Table<K, V>, hash: (K, nat) -> nat, k: K, k2: K)
    requires Sized(t) && Find(t.slots, hash, k).Some? && k2 != k
    ensures var r, found := Pop(t, hash, k), Find(t.slots, hash, k2);
            && r.Removed?
            && Lookup(r.table.slots, hash, k2)
               == if found.Some? && Before(Start(hash, k2, |t.slots|), r.cleared, found.value) then None
                  else Lookup(t.slots, hash, k2)
  {
    hide Contents, Shift, Scan;
    var slots, n := t.slots, |t.slots|;
    var h := Find(slots, hash, k).value;
    FindKey(slots, hash, k);
    var r := Shift(slots, k, h, NextIndex(h, n), n);
    FewerThanSlots(slots);
    var e :| 0 <= e < n && slots[e].Empty?;
    ShiftMoves(slots, k, h, NextIndex(h, n), n, e);
    var after := r.slots[r.hole := Empty];
    var start := Start(hash, k2, n);
    ScanFirst(slots, Some(k2), start, n);
    var stop := Scan(slots, Some(k2), start, n).value;
    if Before(start, r.hole, stop) {
      ScanIs(after, Some(k2), start, r.hole);
    } else {
      ScanIs(after, Some(k2), start, stop);
    }
  }

  /** A pop keeps the table compact, as the search needs it, exactly when the cleared slot lies
      on no entry's probe path. */
  lemma PopCompact<K, V>(t: Table<K, V>, hash: (K, nat) -> nat, k: K)
    requires Sized(t) && Compact(t.slots, hash) && Find(t.slots, hash, k).Some?
    ensures var r := Pop(t, hash, k);
            && r.Removed?
            && (Compact(r.table.slots, hash) <==>
                  forall j :: 0 <= j < |t.slots| && t.slots[j].Full? && j != r.cleared
                              ==> !Before(Start(hash, t.slots[j].key, |t.slots|), r.cleared, j))
  {
    hide Contents, Shift;
    var slots, n := t.slots, |t.slots|;
    var h := Find(slots, hash, k).value;
    FindKey(slots, hash, k);
    FewerThanSlots(slots);
    var e :| 0 <= e < n && slots[e].Empty?;
    ShiftMoves(slots, k, h, NextIndex(h, n), n, e);
    var r := Pop(t, hash, k);
    var after := r.table.slots;
    assert after[r.cleared].Empty?;
    if Compact(after, hash) {
      forall j | 0 <= j < n && slots[j].Full? && j != r.cleared
        ensures !Before(Start(hash, slots[j].key, n), r.cleared, j)
      {
        assert after[j].Full? && after[j].key == slots[j].key;
      }
    }
  }

  /** What a caller can tell before the pop: when no other entry has the key, the table stays
      compact exactly if the slot that htable_get would find is on no other entry's probe path. */
  lemma PopUniqueCompact<K, V>(t: Table<K, V>, hash: (K, nat) -> nat, k: K)
    requires Sized(t) && Compact(t.slots, hash) && Find(t.slots, hash, k).Some?
    requires forall p :: 0 <= p < |t.slots| && t.slots[p].Full? && t.slots[p].key == k
                         ==> p == Find(t.slots, hash, k).value
    ensures var h, r := Find(t.slots, hash, k).value, Pop(t, hash, k);
            && r.Removed?
            && (Compact(r.table.slots, hash) <==>
                  forall j :: 0 <= j < |t.slots| && t.slots[j].Full? && j != h
                              ==> !Before(Start(hash, t.slots[j].key, |t.slots|), h, j))
  {
    hide Sized, Compact, Find, Pop;
    PopUnique(t, hash, k);
    PopCompact(t, hash, k);
  }

  /** Two keys that start at the same slot, under any hash function: popping the first makes the
      second unreachable, though it is still in the table. */
  lemma PopLosesKey<K, V>(hash: (K, nat) -> nat, k1: K, v1: V, k2: K, v2: V)
    requires k1 != k2 && Start(hash, k1, 8) == Start(hash, k2, 8)
    ensures var slots := PutAll(Fresh(8), hash, [(k1, v1), (k2, v2)]).slots;
            Lookup(slots, hash, k1) == Some(v1) && Lookup(slots, hash, k2) == Some(v2)
    ensures var r := Pop(PutAll(Fresh(8), hash, [(k1, v1), (k2, v2)]), hash, k1);
            r.Removed? && Has(r.table.slots, k2) && Lookup(r.table.slots, hash, k2) == None
  {
    hide Contents, Compact, Pop, PutAll, Put;
    var pairs := [(k1, v1), (k2, v2)];
    var t := PutAll(Fresh(8), hash, pairs);
    assert pairs[0] in pairs && pairs[1] in pairs;
    PutsThenGet(hash, 8, pairs, k1);
    PutsThenGet(hash, 8, pairs, k2);
    PutAllAdds(hash, 8, pairs);
    FirstAtStart(hash, k1, v1, k2, v2);
    FindKey(t.slots, hash, k1);
    FindKey(t.slots, hash, k2);
    PopUnique(t, hash, k1);
    PopLookup(t, hash, k1, k2);
    var j := Find(t.slots, hash, k2).value;
    assert Pop(t, hash, k1).table.slots[j] == t.slots[j];
  }

  /** The first key is where its search starts, and nowhere else. */
  lemma FirstAtStart<K, V>(hash: (K, nat) -> nat, k1: K, v1: V, k2: K, v2: V)
    requires k1 != k2
    ensures var slots := PutAll(Fresh(8), hash, [(k1, v1), (k2, v2)]).slots;
            && |slots| == 8 && Find(slots, hash, k1) == Some(Start(hash, k1, 8))
            && forall p :: 0 <= p < 8 && slots[p].Full? && slots[p].key == k1 ==> p == Start(hash, k1, 8)
  {
    var i := Start(hash, k1, 8);
    var e := EmptySlots<K, V>(8);
    var t1 := PutAll(Fresh(8), hash, [(k1, v1)]);
    assert e[i].Empty?;
    NothingPut(Fresh<K, V>(8), hash);
    PutLast(Fresh(8), hash, [], (k1, v1));
    assert [] + [(k1, v1)] == [(k1, v1)];
    assert t1.slots == e[i := Full(k1, v1)];
    assert t1.slots[NextIndex(i, 8)].Empty?;
    PutLast(Fresh(8), hash, [(k1, v1)], (k2, v2));
    assert [(k1, v1)] + [(k2, v2)] == [(k1, v1), (k2, v2)];
    InsertFills(t1.slots, hash, k2, v2);
  }

  // ---------------------------------------------------------------- the capacity

  predicate PowerOf2(n: nat) {
    n == 1 || (n > 1 && n % 2 == 0 && PowerOf2(n / 2))
  }

  lemma DoublePower(n: nat)
    requires PowerOf2(n) && n < 0x8000_0000
    ensures PowerOf2(n * 2)
  {
  }

  predicate OneBit(b: bv32) {
    b != 0 && b & (b - 1) == 0
  }

  /** round_up_to_power_of_2: the least power of two that is no smaller, or 0 for 0 and for
      more than the largest 32-bit one. */
  method RoundUpToPowerOf2(size: bv32) returns (i: bv32)
    ensures if 1 <= size <= 0x8000_0000 then OneBit(i) && i >= size && i >> 1 < size else i == 0
  {
    i := size - 1;
    i := i | (i >> 1);
    i := i | (i >> 2);
    i := i | (i >> 4);
    i := i | (i >> 8);
    i := i | (i >> 16);
    i := i + 1;
  }

  /** The capacity htable_alloc settles for. */
  method CapacityFor(size: bv32) returns (n: nat)
    ensures PowerOf2(n) && n >= HTABLE_MIN_SIZE
    ensures size <= 4 || size > 0x8000_0000 ==> n == HTABLE_MIN_SIZE
    ensures 4 <= size <= 0x8000_0000 ==>
              exists b: bv32 :: OneBit(b) && b >= size && b >> 1 < size && n == b as nat
    ensures OneBit(size) && size >= 4 ==> n == size as nat
  {
    var b := RoundUpToPowerOf2(size);
    if b < 4 {
      b := 4;
    }
    OneBitIsPower(b);
    n := b as nat;
  }

  lemma OneBitIsPower(b: bv32)
    requires OneBit(b) && b >= 4
    ensures PowerOf2(b as nat) && b as nat >= 4 && b as nat <= 0x8000_0000
    ensures b == 4 ==> b as nat == 4
  {
    PowerLiterals();
    assert b == 0x4 || b == 0x8 || b == 0x10 || b == 0x20 || b == 0x40
           || b == 0x80 || b == 0x100 || b == 0x200 || b == 0x400 || b == 0x800
           || b == 0x1000 || b == 0x2000 || b == 0x4000 || b == 0x8000 || b == 0x10000
           || b == 0x20000 || b == 0x40000 || b == 0x80000 || b == 0x100000 || b == 0x200000
           || b == 0x400000 || b == 0x800000 || b == 0x1000000 || b == 0x2000000 || b == 0x4000000
           || b == 0x8000000 || b == 0x10000000 || b == 0x20000000 || b == 0x40000000 || b == 0x80000000;
  }

  lemma PowerLiterals()
    ensures (0x4 as bv32) as nat == 0x4 && PowerOf2(0x4)
    ensures (0x8 as bv32) as nat == 0x8 && PowerOf2(0x8)
    ensures (0x10 as bv32) as nat == 0x10 && PowerOf2(0x10)
    ensures (0x20 as bv32) as nat == 0x20 && PowerOf2(0x20)
    ensures (0x40 as bv32) as nat == 0x40 && PowerOf2(0x40)
    ensures (0x80 as bv32) as nat == 0x80 && PowerOf2(0x80)
    ensures (0x100 as bv32) as nat == 0x100 && PowerOf2(0x100)
    ensures (0x200 as bv32) as nat == 0x200 && PowerOf2(0x200)
    ensures (0x400 as bv32) as nat == 0x400 && PowerOf2(0x400)
    ensures (0x800 as bv32) as nat == 0x800 && PowerOf2(0x800)
    ensures (0x1000 as bv32) as nat == 0x1000 && PowerOf2(0x1000)
    ensures (0x2000 as bv32) as nat == 0x2000 && PowerOf2(0x2000)
    ensures (0x4000 as bv32) as nat == 0x4000 && PowerOf2(0x4000)
    ensures (0x8000 as bv32) as nat == 0x8000 && PowerOf2(0x8000)
    ensures (0x10000 as bv32) as nat == 0x10000 && PowerOf2(0x10000)
    ensures (0x20000 as bv32) as nat == 0x20000 && PowerOf2(0x20000)
    ensures (0x40000 as bv32) as nat == 0x40000 && PowerOf2(0x40000)
    ensures (0x80000 as bv32) as nat == 0x80000 && PowerOf2(0x80000)
    ensures (0x100000 as bv32) as nat == 0x100000 && PowerOf2(0x100000)
    ensures (0x200000 as bv32) as nat == 0x200000 && PowerOf2(0x200000)
    ensures (0x400000 as bv32) as nat == 0x400000 && PowerOf2(0x400000)
    ensures (0x800000 as bv32) as nat == 0x800000 && PowerOf2(0x800000)
    ensures (0x1000000 as bv32) as nat == 0x1000000 && PowerOf2(0x1000000)
    ensures (0x2000000 as bv32) as nat == 0x2000000 && PowerOf2(0x2000000)
    ensures (0x4000000 as bv32) as nat == 0x4000000 && PowerOf2(0x4000000)
    ensures (0x8000000 as bv32) as nat == 0x8000000 && PowerOf2(0x8000000)
    ensures (0x10000000 as bv32) as nat == 0x10000000 && PowerOf2(0x10000000)
    ensures (0x20000000 as bv32) as nat == 0x20000000 && PowerOf2(0x20000000)
    ensures (0x40000000 as bv32) as nat == 0x40000000 && PowerOf2(0x40000000)
    ensures (0x80000000 as bv32) as nat == 0x80000000 && PowerOf2(0x80000000)
  {
  }

  lemma FreshIsSized<K, V>(n: nat, hash: (K, nat) -> nat)
    requires n >= HTABLE_MIN_SIZE
    ensures Sized(Fresh<K, V>(n)) && Compact(EmptySlots<K, V>(n), hash)
  {
    EmptyContents<K, V>(n);
  }

  lemma EmptySlotsAre<K, V>(slots: seq<Slot<K, V>>)
    requires forall i :: 0 <= i < |slots| ==> slots[i].Empty?
    ensures slots == EmptySlots(|slots|)
  {
  }

  // ---------------------------------------------------------------- the object

  const EINVAL := 22

  class HTable<K(==), V> {
    const hash: (K, nat) -> nat
    var elem: array<Slot<K, V>>
    var used: int

    ghost function View(): Table<K, V>
      reads this, elem
    {
      Table(elem[..], used)
    }

    ghost predicate Valid()
      reads this, elem
    {
      Sized(View()) && PowerOf2(elem.Length) && elem.Length < 0x1_0000_0000
    }

    /** htable_alloc. */
    constructor (size: bv32, hash: (K, nat) -> nat)
      ensures Valid() && fresh(elem) && this.hash == hash
      ensures View() == Fresh(elem.Length) && Compact(elem[..], hash)
      ensures size <= 4 || size > 0x8000_0000 ==> elem.Length == HTABLE_MIN_SIZE
      ensures OneBit(size) && size >= 4 ==> elem.Length == size as nat
    {
      hide PowerOf2, OneBit, Sized, Compact, Contents, EmptySlots;
      var n := CapacityFor(size);
      FreshIsSized<K, V>(n, hash);
      this.hash, used := hash, 0;
      elem := new Slot<K, V>[n](_ => Empty);
      new;
      EmptySlotsAre(elem[..]);
    }

    /** htable_insert_internal. */
    static method InsertInternal(nelem: array<Slot<K, V>>, hash: (K, nat) -> nat, k: K, v: V)
      requires HasEmpty(nelem[..])
      modifies nelem
      ensures nelem[..] == Insert(old(nelem[..]), hash, k, v)
    {
      ghost var slots := nelem[..];
      var capacity := nelem.Length;
      ghost var start := Start(hash, k, capacity);
      ScanFirst(slots, None, start, capacity);
      var i := hash(k, capacity) % capacity;
      ghost var left := capacity;
      while true
        invariant 0 <= i < capacity && left >= 0 && nelem[..] == slots
        invariant Scan(slots, None, start, capacity) == Scan(slots, None, i, left)
        decreases left
      {
        if nelem[i].Empty? {
          nelem[i] := Full(k, v);
          return;
        }
        i := i + 1;
        if i == capacity {
          i := 0;
        }
        left := left - 1;
      }
    }

    /** htable_realloc. */
    method Realloc(newCapacity: nat)
      requires newCapacity > elem.Length > 0
      modifies this`elem
      ensures fresh(elem) && elem[..] == Rehash(old(elem[..]), hash, newCapacity)
    {
      hide Insert, Contents;
      ghost var slots := elem[..];
      var nelem := new Slot<K, V>[newCapacity](_ => Empty);
      assert nelem[..] == EmptySlots(newCapacity);
      EmptyContents<K, V>(newCapacity);
      for i := 0 to elem.Length
        invariant elem[..] == slots
        invariant |Contents(nelem[..])| <= i
        invariant Rehash(slots, hash, newCapacity) == Moved(slots, hash, i, nelem[..])
      {
        var pair := elem[i];
        if pair.Full? {
          FewerThanSlots(nelem[..]);
          InsertContents(nelem[..], hash, pair.key, pair.val);
          InsertInternal(nelem, hash, pair.key, pair.val);
        }
      }
      elem := nelem;
    }

    /** htable_put; None stands for NULL.  A capacity of 2^31 can not be doubled. */
    method PutPair(key: Option<K>, val: Option<V>) returns (ret: int)
      requires Valid()
      requires used + 1 >= elem.Length / 2 ==> elem.Length < 0x8000_0000
      modifies this, elem
      ensures Valid() && (elem == old(elem) || fresh(elem))
      ensures ret == if key.None? || val.None? then EINVAL else 0
      ensures old(Compact(elem[..], hash)) ==> Compact(elem[..], hash)
      ensures View() == if key.None? || val.None? then old(View()) else Put(old(View()), hash, key.value, val.value)
    {
      hide Put, Sized;
      if key.None? {
        return EINVAL;
      }
      if val.None? {
        return EINVAL;
      }
      PutFull(key.value, val.value);
      return 0;
    }

    /** The rest of htable_put: rehash when half of the slots would be in use, then insert. */
    method PutFull(key: K, val: V)
      requires Valid()
      requires used + 1 >= elem.Length / 2 ==> elem.Length < 0x8000_0000
      modifies this, elem
      ensures Valid() && (elem == old(elem) || fresh(elem))
      ensures old(Compact(elem[..], hash)) ==> Compact(elem[..], hash)
      ensures View() == Put(old(View()), hash, key, val)
    {
      hide Sized, Insert, Rehash, HasEmpty, Compact, PowerOf2;
      ghost var before := View();
      PutAdds(before, hash, key, val);
      PutHasRoom(before, hash);
      var nused := used + 1;
      if nused >= elem.Length / 2 {
        DoublePower(elem.Length);
        Realloc(elem.Length * 2);
      }
      InsertInternal(elem, hash, key, val);
      used := used + 1;
    }

    /** htable_get_internal; None for ENOENT. */
    method GetInternal(key: K) returns (out: Option<nat>)
      requires elem.Length > 0
      ensures out == Find(elem[..], hash, key)
    {
      ghost var slots := elem[..];
      var capacity := elem.Length;
      var startIdx := hash(key, capacity) % capacity;
      var idx := startIdx;
      ghost var left := capacity;
      while true
        invariant 0 <= idx < capacity && left == capacity - Distance(startIdx, idx, capacity)
        invariant Scan(slots, Some(key), startIdx, capacity) == Scan(slots, Some(key), idx, left)
        decreases left
      {
        if elem[idx].Empty? {
          return None;
        } else if elem[idx].key == key {
          return Some(idx);
        }
        idx := idx + 1;
        if idx == capacity {
          idx := 0;
        }
        left := left - 1;
        if idx == startIdx {
          return None;
        }
      }
    }

    /** htable_get; None for NULL. */
    method Get(key: K) returns (val: Option<V>)
      requires Valid()
      ensures val == Lookup(elem[..], hash, key)
      ensures Compact(elem[..], hash) ==> (val.None? <==> !Has(elem[..], key))
    {
      CompactFinds(elem[..], hash, key);
      var idx := GetInternal(key);
      if idx.None? {
        return None;
      }
      return Some(elem[idx.value].val);
    }

    /** htable_pop. */
    method PopKey(key: K) returns (found: Slot<K, V>)
      requires Valid()
      modifies this`used, elem
      ensures Valid()
      ensures match Find(old(elem[..]), hash, key)
              case None => found == Empty && View() == old(View())
              case Some(_) =>
                && Pop(old(View()), hash, key).Removed?
                && View() == Pop(old(View()), hash, key).table
                && found == Pop(old(View()), hash, key).found
    {
      hide Contents, Scan, Shift;
      ghost var t := View();
      FindKey(t.slots, hash, key);
      var h := GetInternal(key);
      if h.None? {
        return Empty;
      }
      PopRemoves(t, hash, key);
      FewerThanSlots(t.slots);
      used := used - 1;
      found := CloseGap(key, h.value);
    }

    /** Its loop. */
    method CloseGap(key: K, found: nat) returns (pair: Slot<K, V>)
      requires found < elem.Length && elem[found].Full? && elem[found].key == key
      requires HasEmpty(elem[..])
      modifies elem
      ensures var r := Shift(old(elem[..]), key, found, NextIndex(found, elem.Length), elem.Length);
              elem[..] == r.slots[r.hole := Empty] && pair == r.slots[r.hole]
    {
      var hole, i, capacity := found, found, elem.Length;
      ghost var e :| 0 <= e < capacity && elem[e].Empty?;
      ghost var r := Shift(elem[..], key, hole, NextIndex(hole, capacity), capacity);
      ghost var steps := capacity;
      while true
        invariant 0 <= i < capacity && 0 <= hole < capacity && elem[hole].Full? && elem[hole].key == key
        invariant elem[e].Empty? && i != e && Distance(i, e, capacity) <= steps
        invariant r == Shift(elem[..], key, hole, NextIndex(i, capacity), steps)
        decreases steps
      {
        i := i + 1;
        if i == capacity {
          i := 0;
        }
        if elem[i].Empty? {
          pair := elem[hole];
          elem[hole] := Empty;
          return;
        } else if key == elem[i].key {
          ghost var now := elem[..];
          elem[hole] := elem[i];
          assert elem[..] == now[hole := now[i]];
          hole := i;
        }
        steps := steps - 1;
      }
    }

    /** htable_used. */
    method Used() returns (n: nat)
      requires Valid()
      ensures n == |Contents(elem[..])|
    {
      n := used;
    }
  }
}

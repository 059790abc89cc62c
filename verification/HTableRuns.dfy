/** Runs of the hash table that mix puts and pops: exactly which keys such a run loses. */
module HTableRuns {
  import opened HTable
  import opened Wrappers

  datatype Op<+K, +V> = PutOp(key: K, val: V) | PopOp(key: K)

  /** A table and the slots cleared by pops since its last rehash that are still empty. */
  datatype Tracked<+K, +V> = Tracked(table: Table<K, V>, cleared: set<nat>)

  function Init<K, V>(n: nat): Tracked<K, V> {
    Tracked(Fresh(n), {})
  }

  /** Where a put without rehash inserts. */
  function InsertIndex<K(==), V>(slots: seq<Slot<K, V>>, hash: (K, nat) -> nat, k: K): set<nat>
    requires slots != []
  {
    match Scan(slots, None, Start(hash, k, |slots|), |slots|)
    case Some(f) => {f}
    case None => {}
  }

  function Next<K(==), V>(s: Tracked<K, V>, hash: (K, nat) -> nat, op: Op<K, V>): (r: Tracked<K, V>)
    requires s.table.slots != []
    ensures r.table.slots != []
  {
    match op
    case PutOp(k, v) =>
      var t := s.table;
      Tracked(Put(t, hash, k, v),
              if t.used + 1 >= |t.slots| / 2 then {} else s.cleared - InsertIndex(t.slots, hash, k))
    case PopOp(k) =>
      match Pop(s.table, hash, k)
      case NotFound => s
      case Removed(t, _, c) => Tracked(t, s.cleared + {c})
  }

  /** No key is put that is in the table. */
  predicate PutsNew<K(==), V>(s: Tracked<K, V>, op: Op<K, V>) {
    op.PutOp? ==> !Has(s.table.slots, op.key)
  }

  predicate UniqueKeys<K(==), V>(slots: seq<Slot<K, V>>) {
    forall i, j :: 0 <= i < j < |slots| && slots[i].Full? && slots[j].Full? ==> slots[i].key != slots[j].key
  }

  /** On the way from where the search for a key starts to its entry, every empty slot is one
      that a pop cleared. */
  ghost predicate CompactBut<K, V>(slots: seq<Slot<K, V>>, hash: (K, nat) -> nat, cleared: set<nat>) {
    && (forall p <- cleared :: p < |slots| && slots[p].Empty?)
    && (forall j, p :: (0 <= j < |slots| && 0 <= p < |slots| && slots[j].Full? && p !in cleared
                        && Before(Start(hash, slots[j].key, |slots|), p, j)) ==> slots[p].Full?)
  }

  ghost predicate Inv<K, V>(s: Tracked<K, V>, hash: (K, nat) -> nat) {
    Sized(s.table) && UniqueKeys(s.table.slots) && CompactBut(s.table.slots, hash, s.cleared)
  }

  // ---------------------------------------------------------------- unique keys

  lemma {:induction false} Twice<T>(s: seq<T>, i: nat, j: nat)
    requires i < j < |s| && s[i] == s[j]
    ensures multiset(s)[s[i]] >= 2
  {
    var last := |s| - 1;
    assert s == s[..last] + [s[last]];
    if j < last {
      Twice(s[..last], i, j);
    } else {
      assert s[..last][i] == s[i];
    }
  }

  lemma {:induction false} Once<K, V>(slots: seq<Slot<K, V>>, x: Slot<K, V>)
    requires UniqueKeys(slots) && x.Full?
    ensures multiset(slots)[x] <= 1
  {
    if slots != [] {
      var last := |slots| - 1;
      assert slots == slots[..last] + [slots[last]];
      Once(slots[..last], x);
      if slots[last] == x {
        assert forall i :: 0 <= i < last ==> slots[..last][i] == slots[i] && slots[i] != x;
        assert x !in slots[..last];
      }
    }
  }

  /** Unique keys are a matter of the contents alone. */
  lemma SameContentsUnique<K, V>(a: seq<Slot<K, V>>, b: seq<Slot<K, V>>)
    requires UniqueKeys(a) && Contents(a) == Contents(b)
    ensures UniqueKeys(b)
  {
    forall i, j | 0 <= i < j < |b| && b[i].Full? && b[j].Full?
      ensures b[i].key != b[j].key
    {
      assert b[i] in Contents(b) && b[j] in Contents(b);
      var p :| 0 <= p < |a| && a[p] == b[i];
      var q :| 0 <= q < |a| && a[q] == b[j];
      Once(a, b[i]);
      assert multiset(a)[b[i]] == Contents(a)[b[i]] == Contents(b)[b[i]] == multiset(b)[b[i]];
      if b[i] == b[j] {
        Twice(b, i, j);
      } else {
        assert p != q;
      }
    }
  }

  // ---------------------------------------------------------------- one operation

  lemma InsertKeeps<K, V>(slots: seq<Slot<K, V>>, hash: (K, nat) -> nat, cleared: set<nat>, k: K, v: V)
    requires slots != [] && HasEmpty(slots) && UniqueKeys(slots) && !Has(slots, k)
    requires CompactBut(slots, hash, cleared)
    ensures var r := Insert(slots, hash, k, v);
            UniqueKeys(r) && CompactBut(r, hash, cleared - InsertIndex(slots, hash, k))
  {
    hide Scan;
    ScanFirst(slots, None, Start(hash, k, |slots|), |slots|);
    assert forall i :: 0 <= i < |slots| && slots[i].Full? ==> slots[i].key != k;
  }

  lemma PutKeeps<K, V>(s: Tracked<K, V>, hash: (K, nat) -> nat, k: K, v: V)
    requires Inv(s, hash) && !Has(s.table.slots, k)
    ensures Inv(Next(s, hash, PutOp(k, v)), hash)
  {
    hide Contents, CompactBut, UniqueKeys, Insert, Rehash, InsertIndex;
    var t := s.table;
    PutAdds(t, hash, k, v);
    PutHasRoom(t, hash);
    if t.used + 1 >= |t.slots| / 2 {
      var slots := Rehash(t.slots, hash, |t.slots| * 2);
      RehashKeeps(t.slots, hash, |t.slots| * 2);
      SameContentsUnique(t.slots, slots);
      HasContents(t.slots, k);
      HasContents(slots, k);
      CompactIs(slots, hash);
      InsertKeeps(slots, hash, {}, k, v);
      assert {} - InsertIndex(slots, hash, k) == {};
    } else {
      InsertKeeps(t.slots, hash, s.cleared, k, v);
    }
  }

  lemma CompactIs<K, V>(slots: seq<Slot<K, V>>, hash: (K, nat) -> nat)
    requires Compact(slots, hash)
    ensures CompactBut(slots, hash, {})
  {
  }

  lemma PopKeeps<K, V>(s: Tracked<K, V>, hash: (K, nat) -> nat, k: K)
    requires Inv(s, hash)
    ensures Inv(Next(s, hash, PopOp(k)), hash)
  {
    hide Contents, Find, Shift;
    var slots := s.table.slots;
    FindKey(slots, hash, k);
    PopRemoves(s.table, hash, k);
    if Find(slots, hash, k).Some? {
      PopUnique(s.table, hash, k);
    }
  }

  // ---------------------------------------------------------------- runs

  /** The table after a sequence of operations. */
  function After<K(==), V>(s: Tracked<K, V>, hash: (K, nat) -> nat, ops: seq<Op<K, V>>): (r: Tracked<K, V>)
    requires s.table.slots != []
    ensures r.table.slots != []
    decreases |ops|
  {
    if ops == [] then s else After(Next(s, hash, ops[0]), hash, ops[1..])
  }

  predicate AllNew<K(==), V>(s: Tracked<K, V>, hash: (K, nat) -> nat, ops: seq<Op<K, V>>)
    requires s.table.slots != []
    decreases |ops|
  {
    ops != [] ==> PutsNew(s, ops[0]) && AllNew(Next(s, hash, ops[0]), hash, ops[1..])
  }

  lemma {:induction false} RunKeepsInv<K, V>(s: Tracked<K, V>, hash: (K, nat) -> nat, ops: seq<Op<K, V>>)
    requires s.table.slots != [] && Inv(s, hash) && AllNew(s, hash, ops)
    ensures Inv(After(s, hash, ops), hash)
    decreases |ops|
  {
    hide Inv, Next;
    if ops != [] {
      if ops[0].PutOp? {
        PutKeeps(s, hash, ops[0].key, ops[0].val);
      } else {
        PopKeeps(s, hash, ops[0].key);
      }
      RunKeepsInv(Next(s, hash, ops[0]), hash, ops[1..]);
    }
  }

  /** A key that is in the table is not found exactly if a cleared slot lies on its way. */
  lemma LookupExact<K, V>(s: Tracked<K, V>, hash: (K, nat) -> nat, j: nat)
    requires Inv(s, hash) && j < |s.table.slots| && s.table.slots[j].Full?
    ensures var slots := s.table.slots; var k := slots[j].key;
            Lookup(slots, hash, k)
            == if exists p <- s.cleared :: Before(Start(hash, k, |slots|), p, j) then None else Some(slots[j].val)
  {
    hide Contents, Scan;
    var slots := s.table.slots;
    var k, n := slots[j].key, |slots|;
    var start := Start(hash, k, n);
    ScanFirst(slots, Some(k), start, n);
    if exists p <- s.cleared :: Before(start, p, j) {
      var p :| p in s.cleared && Before(start, p, j);
      assert Stops(slots[p], Some(k));
    } else {
      ScanIs(slots, Some(k), start, j);
    }
  }

  /** After any sequence of puts of new keys and pops, with any rehashes: a key that is not in
      the table has no value; and one that is has its value, unless a slot that a pop cleared
      since the last rehash, and that is still empty, lies on the way to it. */
  lemma RunLookup<K, V>(hash: (K, nat) -> nat, n: nat, ops: seq<Op<K, V>>, k: K)
    requires n >= HTABLE_MIN_SIZE && AllNew(Init(n), hash, ops)
    ensures var s := After(Init(n), hash, ops); var slots := s.table.slots;
            && (!Has(slots, k) ==> Lookup(slots, hash, k) == None)
            && forall j :: 0 <= j < |slots| && slots[j].Full? && slots[j].key == k ==>
                 Lookup(slots, hash, k)
                 == if exists p <- s.cleared :: Before(Start(hash, k, |slots|), p, j) then None
                    else Some(slots[j].val)
  {
    hide Inv, Lookup;
    InitInv<K, V>(hash, n);
    RunKeepsInv(Init(n), hash, ops);
    var s := After(Init(n), hash, ops);
    forall j | 0 <= j < |s.table.slots| && s.table.slots[j].Full? && s.table.slots[j].key == k
      ensures Lookup(s.table.slots, hash, k)
              == if exists p <- s.cleared :: Before(Start(hash, k, |s.table.slots|), p, j) then None
                 else Some(s.table.slots[j].val)
    {
      LookupExact(s, hash, j);
    }
    AbsentKey(s.table.slots, hash, k);
  }

  lemma AbsentKey<K, V>(slots: seq<Slot<K, V>>, hash: (K, nat) -> nat, k: K)
    requires slots != []
    ensures !Has(slots, k) ==> Lookup(slots, hash, k) == None
  {
    FindKey(slots, hash, k);
  }

  lemma InitInv<K, V>(hash: (K, nat) -> nat, n: nat)
    requires n >= HTABLE_MIN_SIZE
    ensures Inv(Init<K, V>(n), hash)
  {
    hide Contents;
    EmptyContents<K, V>(n);
  }
}

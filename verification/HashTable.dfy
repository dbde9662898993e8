/** The chained hash table with its two ways of rehashing.  `eqfn` compares keys
    and `hashfn` depends on the key alone. */
module HashTable {
  import opened Prelude

  datatype Entry<K, V> = Entry(key: K, data: V)

  type Buckets<K, V> = seq<seq<Entry<K, V>>>

  const PRIMES: seq<nat> := [
    53, 97, 193, 389, 769, 1543, 3079, 6151, 12289, 24593, 49157, 98317,
    196613, 393241, 786433, 1572869, 3145739, 6291469, 12582917, 25165843,
    50331653, 100663319, 201326611, 402653189, 805306457, 1610612741
  ]

  const LARGEST_LOAD: nat := 1610612741 / 2
  const TWO_32: nat := 0x1_0000_0000

  /** ++ on an unsigned of 32 bits. */
  function Increment(n: nat): nat {
    if n + 1 == TWO_32 then 0 else n + 1
  }

  /** Everything in the table, with how often it is there. */
  ghost function All<K, V>(t: Buckets<K, V>): multiset<Entry<K, V>> {
    if t == [] then multiset{} else All(t[..|t| - 1]) + multiset(t[|t| - 1])
  }

  lemma {:induction false} AllSplit<K, V>(t: Buckets<K, V>, b: nat)
    requires b < |t|
    ensures All(t) == All(t[..b]) + multiset(t[b]) + All(t[b + 1..])
    decreases |t|
  {
    hide All;
    var n := |t| - 1;
    AllSnoc(t, n);
    assert t[..n + 1] == t;
    if b < n {
      AllSplit(t[..n], b);
      assert t[..n][..b] == t[..b] && t[..n][b] == t[b] && t[..n][b + 1..] == t[b + 1..n];
      AllSnoc(t[b + 1..], n - b - 1);
      assert t[b + 1..][..n - b - 1] == t[b + 1..n] && t[b + 1..][..n - b] == t[b + 1..];
    } else {
      AllNone<K, V>();
    }
  }

  lemma AllUpdate<K, V>(t: Buckets<K, V>, b: nat, s: seq<Entry<K, V>>)
    requires b < |t|
    ensures All(t[b := s]) + multiset(t[b]) == All(t) + multiset(s)
  {
    hide All;
    AllSplit(t, b);
    AllSplit(t[b := s], b);
    assert t[b := s][..b] == t[..b] && t[b := s][b + 1..] == t[b + 1..];
  }

  lemma {:induction false} AllEmpty<K, V>(t: Buckets<K, V>)
    requires forall b :: 0 <= b < |t| ==> t[b] == []
    ensures All(t) == multiset{}
  {
    if t != [] {
      AllEmpty(t[..|t| - 1]);
    }
  }

  lemma {:induction false} AllMembers<K, V>(t: Buckets<K, V>, e: Entry<K, V>)
    ensures e in All(t) <==> exists b :: 0 <= b < |t| && e in t[b]
  {
    if t != [] {
      var front := t[..|t| - 1];
      AllMembers(front, e);
      if e in All(front) {
        var b :| 0 <= b < |front| && e in front[b];
        assert e in t[b];
      }
      if e in t[|t| - 1] {}
      forall b | 0 <= b < |t| && e in t[b]
        ensures e in All(t)
      {
        if b < |front| { assert e in front[b]; }
      }
    }
  }

  /** The first `n` elements of a bucket hash to `b`. */
  ghost predicate Right<K, V>(bucket: seq<Entry<K, V>>, n: nat, hash: K -> nat, len: nat, b: nat)
    requires n <= |bucket| && len > 0
  {
    forall k :: 0 <= k < n ==> hash(bucket[k].key) % len == b
  }

  /** Every element is in the bucket its hash names. */
  ghost predicate Placed<K, V>(t: Buckets<K, V>, hash: K -> nat) {
    forall b :: 0 <= b < |t| ==> Right(t[b], |t[b]|, hash, |t|, b)
  }

  /** The buckets below `done` and from `start` on are right. */
  ghost predicate PlacedBut<K, V>(t: Buckets<K, V>, hash: K -> nat, done: nat, start: nat) {
    forall b :: 0 <= b < |t| && (b < done || start <= b) ==> Right(t[b], |t[b]|, hash, |t|, b)
  }

  ghost function Entries<K, V>(m: map<K, V>): set<Entry<K, V>> {
    set k | k in m :: Entry(k, m[k])
  }

  lemma EntriesInsert<K, V>(m: map<K, V>, e: Entry<K, V>)
    requires e.key !in m
    ensures Entries(m[e.key := e.data]) == Entries(m) + {e} && e !in Entries(m)
  {
    var n := m[e.key := e.data];
    forall x | x in Entries(m) + {e}
      ensures x in Entries(n)
    {
      assert x.key in n && n[x.key] == x.data;
    }
  }

  lemma EntriesRemove<K, V>(m: map<K, V>, k: K)
    requires k in m
    ensures Entries(m - {k}) == Entries(m) - {Entry(k, m[k])} && Entry(k, m[k]) in Entries(m)
  {
    var n := m - {k};
    forall x | x in Entries(m) - {Entry(k, m[k])}
      ensures x in Entries(n)
    {
      assert x.key in n && n[x.key] == x.data;
    }
  }

  lemma {:induction false} EntriesCount<K, V>(m: map<K, V>)
    ensures |Entries(m)| == |m|
  {
    if m == map[] {
      assert Entries(m) == {};
    } else {
      var k :| k in m;
      EntriesRemove(m, k);
      EntriesCount(m - {k});
      assert (m - {k})[k := m[k]] == m;
    }
  }

  // ----- rehashing -----

  /** The element `e` put in front of its bucket. */
  lemma Pushed<K, V>(t: Buckets<K, V>, hash: K -> nat, e: Entry<K, V>, done: nat, start: nat)
    requires t != [] && PlacedBut(t, hash, done, start)
    ensures var b := hash(e.key) % |t|; var r := t[b := [e] + t[b]];
      PlacedBut(r, hash, done, start) && All(r) == All(t) + multiset{e}
  {
    hide All;
    var b := hash(e.key) % |t|;
    AllUpdate(t, b, [e] + t[b]);
    assert multiset([e] + t[b]) == multiset{e} + multiset(t[b]);
    Cancel(All(t[b := [e] + t[b]]), All(t) + multiset{e}, multiset(t[b]));
  }

  /** The element at `k` of bucket `b` taken out. */
  lemma Unlinked<K, V>(t: Buckets<K, V>, b: nat, k: nat)
    requires b < |t| && k < |t[b]|
    ensures All(t[b := t[b][..k] + t[b][k + 1..]]) + multiset{t[b][k]} == All(t)
  {
    hide All;
    AllUpdate(t, b, t[b][..k] + t[b][k + 1..]);
    assert t[b] == t[b][..k] + [t[b][k]] + t[b][k + 1..];
    var cut := t[b][..k] + t[b][k + 1..];
    assert multiset(t[b]) == multiset(cut) + multiset{t[b][k]};
    Cancel(All(t[b := cut]) + multiset{t[b][k]}, All(t), multiset(cut));
  }

  /** HT_GROW when malloc succeeds: every chain is moved to a new table. */
  method RehashFresh<K, V>(table: Buckets<K, V>, hash: K -> nat, newLen: nat) returns (t: Buckets<K, V>)
    requires newLen > 0
    ensures |t| == newLen && Placed(t, hash) && All(t) == All(table)
  {
    hide All, Right;
    t := seq(newLen, _ => []);
    NoneWrong(t, hash);
    assert table[..0] == [];
    AllNone<K, V>();
    for b := 0 to |table|
      invariant |t| == newLen && PlacedBut(t, hash, newLen, newLen) && All(t) == All(table[..b])
    {
      var elm := table[b];
      AllSnoc(table, b);
      while elm != []
        invariant |t| == newLen && PlacedBut(t, hash, newLen, newLen)
        invariant All(t) + multiset(elm) == All(table[..b + 1])
      {
        Pushed(t, hash, elm[0], newLen, newLen);
        assert elm == [elm[0]] + elm[1..];
        var b2 := hash(elm[0].key) % newLen;
        t, elm := t[b2 := [elm[0]] + t[b2]], elm[1..];
      }
    }
    assert table[..|table|] == table;
  }

  lemma AllNone<K, V>()
    ensures All<K, V>([]) == multiset{}
  {
  }

  lemma NoneWrong<K, V>(t: Buckets<K, V>, hash: K -> nat)
    requires forall b :: 0 <= b < |t| ==> t[b] == []
    ensures PlacedBut(t, hash, |t|, |t|) && All(t) == multiset{}
  {
    AllEmpty(t);
  }

  lemma AllSnoc<K, V>(t: Buckets<K, V>, b: nat)
    requires b < |t|
    ensures All(t[..b + 1]) == All(t[..b]) + multiset(t[b])
  {
    assert t[..b + 1][..b] == t[..b];
  }

  /** HT_GROW when only realloc succeeds: the chains are sorted out in place.  An
      element that moves up may be met again, and is then found to be right. */
  method RehashInPlace<K, V>(table: Buckets<K, V>, hash: K -> nat, newLen: nat) returns (t: Buckets<K, V>)
    requires |table| <= newLen && newLen > 0
    ensures |t| == newLen && Placed(t, hash) && All(t) == All(table)
  {
    hide All, Right;
    var oldLen := |table|;
    t := table + seq(newLen - oldLen, _ => []);
    Widened(table, newLen - oldLen, hash);
    for b := 0 to oldLen
      invariant |t| == newLen && PlacedBut(t, hash, b, oldLen) && All(t) == All(table)
    {
      var k := 0;
      RightNone(t[b], hash, newLen, b);
      while k < |t[b]|
        invariant |t| == newLen && PlacedBut(t, hash, b, oldLen) && All(t) == All(table)
        invariant k <= |t[b]| && Right(t[b], k, hash, newLen, b)
        decreases |t[b]| - k
      {
        var e := t[b][k];
        var b2 := hash(e.key) % newLen;
        if b2 == b {
          RightNext(t[b], k, hash, newLen, b);
          k := k + 1;
        } else {
          Unlinked(t, b, k);
          RightCut(t[b], k, hash, newLen, b);
          var cut := t[b := t[b][..k] + t[b][k + 1..]];
          Pushed(cut, hash, e, b, oldLen);
          t := cut[b2 := [e] + cut[b2]];
        }
      }
    }
  }

  lemma Widened<K, V>(t: Buckets<K, V>, more: nat, hash: K -> nat)
    ensures var r := t + seq(more, _ => []); PlacedBut(r, hash, 0, |t|) && All(r) == All(t)
    decreases more
  {
    var r := t + seq(more, _ => []);
    if more > 0 {
      assert r[..|r| - 1] == t + seq(more - 1, _ => []);
      Widened(t, more - 1, hash);
    } else {
      assert r == t;
    }
  }

  lemma RightNone<K, V>(bucket: seq<Entry<K, V>>, hash: K -> nat, len: nat, b: nat)
    requires len > 0
    ensures Right(bucket, 0, hash, len, b)
  {
  }

  lemma RightNext<K, V>(bucket: seq<Entry<K, V>>, k: nat, hash: K -> nat, len: nat, b: nat)
    requires k < |bucket| && len > 0 && Right(bucket, k, hash, len, b) && hash(bucket[k].key) % len == b
    ensures Right(bucket, k + 1, hash, len, b)
  {
  }

  lemma RightCut<K, V>(bucket: seq<Entry<K, V>>, k: nat, hash: K -> nat, len: nat, b: nat)
    requires k < |bucket| && len > 0 && Right(bucket, k, hash, len, b)
    ensures Right(bucket[..k] + bucket[k + 1..], k, hash, len, b)
    ensures Right(bucket, |bucket|, hash, len, b) ==> Right(bucket[..k] + bucket[k + 1..], |bucket| - 1, hash, len, b)
  {
  }

  /** HT_GROW's search for a size: the next prime whose load limit is above `size`.
      The test of the index comes after it is used: `past` says that the search goes
      on behind the last prime, where the model stops. */
  method NextSize(primeIdx: int, size: nat) returns (idx: nat, newLen: nat, newLoadLimit: nat, past: bool)
    requires -1 <= primeIdx < |PRIMES| - 1
    ensures past <==> size >= LARGEST_LOAD
    ensures !past ==> primeIdx < idx < |PRIMES| && newLen == PRIMES[idx] && newLoadLimit == newLen / 2 > size
    ensures !past ==> forall j :: primeIdx < j < idx ==> PRIMES[j] / 2 <= size
  {
    idx := primeIdx + 1;
    newLen := PRIMES[idx];
    newLoadLimit := newLen / 2;
    LastIsLargest(idx);
    while newLoadLimit <= size && idx < |PRIMES|
      invariant primeIdx < idx < |PRIMES| && newLen == PRIMES[idx] && newLoadLimit == newLen / 2 <= LARGEST_LOAD
      invariant forall j :: primeIdx < j < idx ==> PRIMES[j] / 2 <= size
      decreases |PRIMES| - idx
    {
      idx := idx + 1;
      if idx == |PRIMES| { return idx, newLen, newLoadLimit, true; }
      newLen := PRIMES[idx];
      newLoadLimit := newLen / 2;
      LastIsLargest(idx);
    }
    past := false;
  }

  lemma LastIsLargest(i: nat)
    requires i < |PRIMES|
    ensures PRIMES[i] / 2 <= LARGEST_LOAD == PRIMES[|PRIMES| - 1] / 2
    ensures i < |PRIMES| - 1 ==> PRIMES[i] / 2 + 1 < LARGEST_LOAD
  {
  }

  function Match<K, V>(m: map<K, V>, k: K): Option<Entry<K, V>> {
    if k in m then Some(Entry(k, m[k])) else None
  }

  /** An element with this key, met at its bucket, is the one the map has. */
  lemma Met<K, V>(t: Buckets<K, V>, m: map<K, V>, b: nat, k: nat)
    requires All(t) == multiset(Entries(m)) && b < |t| && k < |t[b]|
    ensures t[b][k].key in m && m[t[b][k].key] == t[b][k].data
  {
    hide All;
    AllMembers(t, t[b][k]);
  }

  /** A key that its bucket does not have is nowhere. */
  lemma Missed<K, V>(t: Buckets<K, V>, hash: K -> nat, m: map<K, V>, key: K)
    requires All(t) == multiset(Entries(m)) && Placed(t, hash)
    requires t == [] || forall k :: 0 <= k < |t[hash(key) % |t|]| ==> t[hash(key) % |t|][k].key != key
    ensures key !in m
  {
    hide All;
    if key in m {
      var e := Entry(key, m[key]);
      assert e in Entries(m);
      AllMembers(t, e);
    }
  }

  ghost predicate Dropped<K, V>(was: map<K, V>, now: map<K, V>, e: Entry<K, V>) {
    e.key in was && was[e.key] == e.data && now == was - {e.key}
  }

  class Table<K(==), V(==)> {
    var table: Buckets<K, V>
    var nEntries: nat
    var loadLimit: nat
    var primeIdx: int
    const hash: K -> nat
    /** What a plain map would hold. */
    ghost var contents: map<K, V>

    ghost predicate Sized()
      reads this
    {
      && -1 <= primeIdx < |PRIMES|
      && |table| == (if primeIdx == -1 then 0 else PRIMES[primeIdx])
      && loadLimit == |table| / 2
    }

    /** The elements are those of the map, each in its bucket. */
    ghost predicate Stored()
      reads this
    {
      Sized() && Placed(table, hash) && All(table) == multiset(Entries(contents))
    }

    /** And they are counted; only the largest table is ever loaded over its limit. */
    ghost predicate Valid()
      reads this
    {
      Stored() && nEntries == |contents| < TWO_32 && (nEntries <= loadLimit || primeIdx == |PRIMES| - 1)
    }

    /** HT_INIT */
    constructor (hash: K -> nat)
      ensures Valid() && contents == map[] && this.hash == hash
    {
      table, nEntries, loadLimit, primeIdx := [], 0, 0, -1;
      this.hash := hash;
      contents := map[];
    }

    /** HT_GROW; `mallocs` says whether malloc succeeds, and realloc does. */
    method Grow(size: nat, mallocs: bool) returns (past: bool)
      requires Valid()
      modifies `table, `loadLimit, `primeIdx
      ensures Valid() && primeIdx >= old(primeIdx)
      ensures past <==> old(primeIdx) < |PRIMES| - 1 && size >= LARGEST_LOAD
      ensures !past ==> loadLimit > size || primeIdx == |PRIMES| - 1
      ensures past || old(loadLimit) > size ==> table == old(table)
    {
      hide All, Right, Entries;
      past := false;
      if primeIdx == |PRIMES| - 1 { return; }
      if primeIdx >= 0 { LastIsLargest(primeIdx); }
      if loadLimit > size { return; }
      var idx, newLen, newLoadLimit;
      idx, newLen, newLoadLimit, past := NextSize(primeIdx, size);
      if past { return; }
      PrimesGrow(primeIdx, idx);
      if mallocs {
        table := RehashFresh(table, hash, newLen);
      } else {
        table := RehashInPlace(table, hash, newLen);
      }
      primeIdx, loadLimit := idx, newLoadLimit;
    }

    /** HT_FIND: agrees with the plain map. */
    method Find(key: K) returns (r: Option<Entry<K, V>>)
      requires Valid()
      ensures r == Match(contents, key)
    {
      hide All, Entries;
      var b, k, found := FindP(key);
      return if found then Some(table[b][k]) else None;
    }

    /** HT_FIND_P */
    method FindP(key: K) returns (b: nat, k: nat, found: bool)
      requires Valid()
      ensures found == (key in contents)
      ensures found ==> b < |table| && k < |table[b]| && table[b][k] == Entry(key, contents[key])
    {
      hide All, Entries, Placed;
      if table == [] {
        Missed(table, hash, contents, key);
        return 0, 0, false;
      }
      b, k := hash(key) % |table|, 0;
      while k < |table[b]|
        invariant k <= |table[b]| && forall j :: 0 <= j < k ==> table[b][j].key != key
      {
        if table[b][k].key == key {
          Met(table, contents, b, k);
          return b, k, true;
        }
        k := k + 1;
      }
      Missed(table, hash, contents, key);
      return b, k, false;
    }

    /** The test for growth in HT_INSERT: it never looks behind the last prime. */
    method MakeRoom(mallocs: bool)
      requires Valid()
      modifies `table, `loadLimit, `primeIdx
      ensures Valid() && table != [] && (nEntries < loadLimit || primeIdx == |PRIMES| - 1)
    {
      hide All, Right, Entries, Placed;
      if table == [] || nEntries >= loadLimit {
        if primeIdx >= 0 { LastIsLargest(primeIdx); }
        var past := Grow(nEntries + 1, mallocs);
        assert !past;
      }
    }

    /** HT_INSERT, for an element that no other one in the table matches.
        The counter is 32 bits wide. */
    method Insert(e: Entry<K, V>, mallocs: bool)
      requires Valid() && e.key !in contents
      modifies this
      ensures Stored() && contents == old(contents)[e.key := e.data]
      ensures Valid() <==> old(nEntries) + 1 < TWO_32
    {
      hide All, Right, Entries;
      MakeRoom(mallocs);
      EntriesInsert(contents, e);
      Pushed(table, hash, e, |table|, |table|);
      assert |contents[e.key := e.data]| == nEntries + 1;
      nEntries := Increment(nEntries);
      var b := hash(e.key) % |table|;
      table := table[b := [e] + table[b]];
      contents := contents[e.key := e.data];
    }

    /** HT_REMOVE */
    method Remove(key: K) returns (r: Option<Entry<K, V>>)
      requires Valid()
      modifies `table, `nEntries, `contents
      ensures Valid() && r == Match(old(contents), key) && contents == old(contents) - {key}
    {
      hide All, Entries, Placed;
      var b, k, found := FindP(key);
      if !found {
        assert contents - {key} == contents;
        return None;
      }
      r := Some(table[b][k]);
      Unlink(b, k);
    }

    /** *p = r->hte_next, at the element `k` of bucket `b` */
    method Unlink(b: nat, k: nat)
      requires Valid() && b < |table| && k < |table[b]|
      modifies `table, `nEntries, `contents
      ensures Valid() && table == old(table[b := table[b][..k] + table[b][k + 1..]])
      ensures All(table) + multiset{old(table[b][k])} == old(All(table))
      ensures Dropped(old(contents), contents, old(table[b][k]))
    {
      hide All, Entries;
      ghost var e := table[b][k];
      Met(table, contents, b, k);
      Unlinked(table, b, k);
      EntriesRemove(contents, e.key);
      MultisetLess(Entries(contents), e, All(table[b := table[b][..k] + table[b][k + 1..]]));
      assert |contents| == |contents - {e.key}| + 1 by {
        assert (contents - {e.key})[e.key := contents[e.key]] == contents;
      }
      RightCut(table[b], k, hash, |table|, b);
      table := table[b := table[b][..k] + table[b][k + 1..]];
      nEntries := nEntries - 1;
      contents := contents - {e.key};
    }

    /** HT_REP_IS_BAD: finds nothing wrong exactly when the sizes agree, the load is
        within its limit, every element is in its bucket and the count is the number
        of elements.  It also complains of a sound table that is loaded over its limit. */
    method RepIsBad() returns (bad: nat)
      requires primeIdx < |PRIMES|
      ensures bad == 0 <==> Sized() && nEntries <= loadLimit && Placed(table, hash) && nEntries == |All(table)|
      ensures Valid() ==> (bad == 0 <==> nEntries <= loadLimit)
    {
      hide All, Entries;
      EntriesCount(contents);
      if table == [] {
        AllNone<K, V>();
        return if nEntries == 0 && loadLimit == 0 && primeIdx == -1 then 0 else 1;
      }
      if primeIdx < 0 || loadLimit == 0 { return 2; }
      if nEntries > loadLimit { return 3; }
      if |table| != PRIMES[primeIdx] { return 4; }
      if loadLimit != |table| / 2 { return 5; }
      var n := 0;
      assert table[..0] == [];
      AllNone<K, V>();
      for i := 0 to |table|
        invariant n == |All(table[..i])| && forall j :: 0 <= j < i ==> Right(table[j], |table[j]|, hash, |table|, j)
      {
        AllSnoc(table, i);
        for k := 0 to |table[i]|
          invariant n == |All(table[..i])| + k && Right(table[i], k, hash, |table|, i)
        {
          if hash(table[i][k].key) % |table| != i { return 10000 + i; }
          n := n + 1;
        }
      }
      assert table[..|table|] == table;
      return if n != nEntries then 6 else 0;
    }

    /** The loop shared by HT_START, HT_NEXT and HT_NEXT_RMV: the first bucket
        from `from` on that is not empty. */
    method FirstFrom(from: nat) returns (p: Place)
      requires from <= |table|
      ensures p.At? ==> from <= p.b < |table| && p.k == 0 && table[p.b] != []
      ensures forall i :: from <= i < (if p.At? then p.b else |table|) ==> table[i] == []
    {
      var b := from;
      while b < |table|
        invariant from <= b <= |table| && forall i :: from <= i < b ==> table[i] == []
      {
        if table[b] != [] { return At(b, 0); }
        b := b + 1;
      }
      return Gone;
    }

    /** The place of an element, or the end. */
    ghost predicate Standing(p: Place)
      reads this
    {
      p.At? ==> p.b < |table| && p.k < |table[p.b]|
    }

    /** HT_NEXT: the bucket is found again from the hash of the element. */
    method Next(p: Place) returns (q: Place)
      requires Valid() && p.At? && Standing(p)
      ensures Standing(q) && Before(table, q) == Before(table, p) + multiset{table[p.b][p.k]}
    {
      hide All, Entries;
      assert Right(table[p.b], |table[p.b]|, hash, |table|, p.b);
      BeforeNext(table, p);
      if p.k + 1 < |table[p.b]| { return At(p.b, p.k + 1); }
      q := FirstFrom(hash(table[p.b][p.k].key) % |table| + 1);
      BeforeSkip(table, p.b + 1, q);
    }

    /** HT_NEXT_RMV */
    method NextRmv(p: Place) returns (q: Place)
      requires Valid() && p.At? && Standing(p)
      modifies `table, `nEntries, `contents
      ensures Valid() && Standing(q) && Before(table, q) == old(Before(table, p))
      ensures All(table) + multiset{old(table[p.b][p.k])} == old(All(table))
      ensures Dropped(old(contents), contents, old(table[p.b][p.k]))
    {
      hide All, Entries;
      assert Right(table[p.b], |table[p.b]|, hash, |table|, p.b);
      var h := hash(table[p.b][p.k].key);
      BeforeCut(table, p);
      Unlink(p.b, p.k);
      if p.k < |table[p.b]| { return p; }
      q := FirstFrom(h % |table| + 1);
      BeforeSkip(table, p.b + 1, q);
    }

    /** A traversal that removes some elements on its way meets every element once,
        and leaves those it did not remove. */
    method Sweep(keep: Entry<K, V> -> bool) returns (seen: seq<Entry<K, V>>)
      requires Valid()
      modifies `table, `nEntries, `contents
      ensures Valid() && multiset(seen) == multiset(Entries(old(contents)))
      ensures contents == map k | k in old(contents) && keep(Entry(k, old(contents)[k])) :: old(contents)[k]
    {
      hide All, Entries, Placed, Before, Dropped, Filtered, OnlyKept;
      seen := [];
      ghost var was := contents;
      ghost var removed: multiset<Entry<K, V>> := multiset{};
      var p := FirstFrom(0);
      BeforeStart(table, p);
      NoneDropped(was, keep);
      while p.At?
        invariant Valid() && Standing(p) && multiset(seen) == Before(table, p) + removed
        invariant All(table) + removed == multiset(Entries(was))
        invariant Filtered(was, contents, keep) && OnlyKept(Before(table, p), keep)
        decreases |Entries(was)| - |seen|
      {
        BeforeBound(table, p, removed, seen);
        var e := table[p.b][p.k];
        seen := seen + [e];
        if keep(e) {
          OneKept(Before(table, p), e, keep);
          p := Next(p);
        } else {
          ghost var before := contents;
          p := NextRmv(p);
          OneDropped(was, before, contents, e, keep);
          removed := removed + multiset{e};
        }
      }
      AllKept(was, contents, table, keep);
    }
  }

  /** A struct type ** that points at an element, or NULL. */
  datatype Place = Gone | At(b: nat, k: nat)

  /** What a traversal that stands at `p` has passed. */
  ghost function Before<K, V>(t: Buckets<K, V>, p: Place): multiset<Entry<K, V>>
    requires p.At? ==> p.b < |t| && p.k <= |t[p.b]|
  {
    if p.At? then All(t[..p.b]) + multiset(t[p.b][..p.k]) else All(t)
  }

  lemma BeforeNext<K, V>(t: Buckets<K, V>, p: Place)
    requires p.At? && p.b < |t| && p.k < |t[p.b]|
    ensures All(t[..p.b]) + multiset(t[p.b][..p.k + 1]) == Before(t, p) + multiset{t[p.b][p.k]}
    ensures p.k + 1 == |t[p.b]| ==> All(t[..p.b + 1]) == Before(t, p) + multiset{t[p.b][p.k]}
  {
    hide All;
    AllSnoc(t, p.b);
    assert t[p.b][..p.k + 1] == t[p.b][..p.k] + [t[p.b][p.k]];
    assert p.k + 1 == |t[p.b]| ==> t[p.b] == t[p.b][..p.k + 1];
  }

  lemma {:induction false} BeforeSkip<K, V>(t: Buckets<K, V>, from: nat, q: Place)
    requires from <= |t| && (q.At? ==> from <= q.b < |t| && q.k == 0)
    requires forall i :: from <= i < (if q.At? then q.b else |t|) ==> t[i] == []
    ensures Before(t, q) == All(t[..from])
    decreases |t| - from
  {
    hide All;
    if q.At? && q.b == from {
      assert t[q.b][..0] == [];
    } else if from == |t| {
      assert t[..|t|] == t;
    } else {
      AllSnoc(t, from);
      BeforeSkip(t, from + 1, q);
    }
  }

  lemma BeforeStart<K, V>(t: Buckets<K, V>, q: Place)
    requires q.At? ==> q.b < |t| && q.k == 0
    requires forall i :: 0 <= i < (if q.At? then q.b else |t|) ==> t[i] == []
    ensures Before(t, q) == multiset{}
  {
    hide All;
    BeforeSkip(t, 0, q);
    assert t[..0] == [];
    AllNone<K, V>();
  }

  lemma BeforeBound<K, V>(t: Buckets<K, V>, p: Place, removed: multiset<Entry<K, V>>, seen: seq<Entry<K, V>>)
    requires p.At? && p.b < |t| && p.k < |t[p.b]| && multiset(seen) == Before(t, p) + removed
    ensures |seen| < |All(t) + removed|
  {
    hide All;
    AllSplit(t, p.b);
    assert t[p.b] == t[p.b][..p.k] + t[p.b][p.k..];
    assert multiset(t[p.b]) == multiset(t[p.b][..p.k]) + multiset(t[p.b][p.k..]);
    assert |multiset(seen)| == |seen|;
  }

  /** Taking the element at `p` out leaves what stood before it. */
  lemma BeforeCut<K, V>(t: Buckets<K, V>, p: Place)
    requires p.At? && p.b < |t| && p.k < |t[p.b]|
    ensures var r := t[p.b := t[p.b][..p.k] + t[p.b][p.k + 1..]];
      && Before(r, p) == Before(t, p)
      && (p.k == |r[p.b]| ==> All(r[..p.b + 1]) == Before(t, p))
  {
    hide All;
    var r := t[p.b := t[p.b][..p.k] + t[p.b][p.k + 1..]];
    assert r[..p.b] == t[..p.b] && r[p.b][..p.k] == t[p.b][..p.k];
    AllSnoc(r, p.b);
    assert p.k == |r[p.b]| ==> r[p.b][..p.k] == r[p.b];
  }

  /** Some of `was` that is not to be kept is gone. */
  ghost predicate Filtered<K, V>(was: map<K, V>, now: map<K, V>, keep: Entry<K, V> -> bool) {
    && (forall k :: k in now ==> k in was && now[k] == was[k])
    && (forall k :: k in was && k !in now ==> !keep(Entry(k, was[k])))
  }

  ghost predicate OnlyKept<K, V>(passed: multiset<Entry<K, V>>, keep: Entry<K, V> -> bool) {
    forall e :: e in passed ==> keep(e)
  }

  lemma NoneDropped<K, V>(was: map<K, V>, keep: Entry<K, V> -> bool)
    ensures Filtered(was, was, keep) && OnlyKept(multiset{}, keep)
  {
  }

  lemma OneKept<K, V>(passed: multiset<Entry<K, V>>, e: Entry<K, V>, keep: Entry<K, V> -> bool)
    requires OnlyKept(passed, keep) && keep(e)
    ensures OnlyKept(passed + multiset{e}, keep)
  {
  }

  lemma OneDropped<K, V>(was: map<K, V>, before: map<K, V>, now: map<K, V>, e: Entry<K, V>, keep: Entry<K, V> -> bool)
    requires Filtered(was, before, keep) && Dropped(before, now, e) && !keep(e)
    ensures Filtered(was, now, keep)
  {
  }

  lemma AllKept<K, V>(was: map<K, V>, now: map<K, V>, t: Buckets<K, V>, keep: Entry<K, V> -> bool)
    requires Filtered(was, now, keep) && All(t) == multiset(Entries(now)) && OnlyKept(Before(t, Gone), keep)
    ensures now == map k | k in was && keep(Entry(k, was[k])) :: was[k]
    ensures Before(t, Gone) == All(t)
  {
    hide All;
    forall k | k in now
      ensures keep(Entry(k, was[k]))
    {
      assert Entry(k, now[k]) in Entries(now);
    }
  }

  lemma PrimesGrow(i: int, j: nat)
    requires -1 <= i < j < |PRIMES|
    ensures (if i == -1 then 0 else PRIMES[i]) < PRIMES[j]
  {
  }

  lemma MultisetLess<E>(s: set<E>, e: E, rest: multiset<E>)
    requires e in s && rest + multiset{e} == multiset(s)
    ensures rest == multiset(s - {e})
  {
    assert multiset(s - {e}) + multiset{e} == multiset(s);
    Cancel(rest, multiset(s - {e}), multiset{e});
  }

  // ----- whole runs -----

  datatype Op<K, V> =
    | Insert(e: Entry<K, V>, mallocs: bool)
    | Remove(key: K)
    | Find(key: K)
    | Grow(size: nat, mallocs: bool)

  /** The operation on a plain map, and what it answers. */
  ghost function After<K, V>(m: map<K, V>, op: Op<K, V>): map<K, V> {
    match op
    case Insert(e, _) => m[e.key := e.data]
    case Remove(key) => m - {key}
    case Find(_) | Grow(_, _) => m
  }

  function Answer<K, V>(m: map<K, V>, op: Op<K, V>): Option<Entry<K, V>> {
    match op
    case Remove(key) => Match(m, key)
    case Find(key) => Match(m, key)
    case Insert(_, _) | Grow(_, _) => None
  }

  /** What HT_INSERT asks for, and a size that the table of primes covers. */
  ghost predicate Allowed<K, V>(m: map<K, V>, op: Op<K, V>) {
    match op
    case Insert(e, _) => e.key !in m && |m| + 1 < TWO_32
    case Grow(size, _) => size < LARGEST_LOAD
    case Remove(_) | Find(_) => true
  }

  ghost function AfterAll<K, V>(ops: seq<Op<K, V>>): map<K, V> {
    if ops == [] then map[] else After(AfterAll(ops[..|ops| - 1]), ops[|ops| - 1])
  }

  /** In every run every answer is that of a plain map, however the table grew. */
  method Run<K(==), V(==)>(hash: K -> nat, ops: seq<Op<K, V>>) returns (answers: seq<Option<Entry<K, V>>>)
    requires forall i :: 0 <= i < |ops| ==> Allowed(AfterAll(ops[..i]), ops[i])
    ensures |answers| == |ops|
    ensures forall i :: 0 <= i < |ops| ==> answers[i] == Answer(AfterAll(ops[..i]), ops[i])
  {
    hide Placed, All, Entries, Answer, After, Allowed;
    var t := new Table(hash);
    answers := [];
    for i := 0 to |ops|
      invariant t.Valid() && t.contents == AfterAll(ops[..i]) && |answers| == i && fresh(t)
      invariant forall j :: 0 <= j < i ==> answers[j] == Answer(AfterAll(ops[..j]), ops[j])
    {
      assert ops[..i + 1][..i] == ops[..i];
      var r := Perform(t, ops[i]);
      answers := answers + [r];
    }
  }

  method Perform<K(==), V(==)>(t: Table<K, V>, op: Op<K, V>) returns (r: Option<Entry<K, V>>)
    requires t.Valid() && Allowed(t.contents, op)
    modifies t
    ensures t.Valid() && t.contents == After(old(t.contents), op) && r == Answer(old(t.contents), op)
  {
    hide Placed, All, Entries;
    r := None;
    match op
    case Insert(e, mallocs) => t.Insert(e, mallocs);
    case Remove(key) => r := t.Remove(key);
    case Find(key) => r := t.Find(key);
    case Grow(size, mallocs) => var _ := t.Grow(size, mallocs);
  }
}

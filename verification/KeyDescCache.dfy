/** The client's descriptor cache (src/client/key_desc_cache.cpp): a recency list, least recent
    first, and a hash map from key to list node. */
module DescCache {
  import opened Base

  datatype Access = LocalDirect | NodeDirect | RemoteRpc

  datatype Desc = Desc(key: Key, storeId: nat, offset: nat, size: nat, accessTime: nat, storeAddr: string,
                       access: Access)

  // ---------- specification: a list of descriptors, least recently used first ----------

  function KeysOf(l: seq<Desc>): seq<Key> {
    seq(|l|, i requires 0 <= i < |l| => l[i].key)
  }

  ghost predicate Wf(l: seq<Desc>) { NoDup(KeysOf(l)) }

  function Find(l: seq<Desc>, k: Key): Option<Desc> {
    if l == [] then None else if l[0].key == k then Some(l[0]) else Find(l[1..], k)
  }

  /** The list without the entry of `k`. */
  function Drop(l: seq<Desc>, k: Key): seq<Desc> {
    if l == [] then [] else if l[0].key == k then l[1..] else [l[0]] + Drop(l[1..], k)
  }

  function LookupSpec(l: seq<Desc>, k: Key, now: nat): seq<Desc> {
    var d := Find(l, k);
    if d.Some? then Drop(l, k) + [d.value.(accessTime := now)] else l
  }

  /** What `EvictIfNeeded` leaves: fewer than `cap` entries, or none. */
  function EvictSpec(l: seq<Desc>, cap: nat): seq<Desc> {
    if |l| >= cap && l != [] then EvictSpec(l[1..], cap) else l
  }

  function InsertSpec(l: seq<Desc>, cap: nat, k: Key, d: Desc): seq<Desc> {
    (if Find(l, k).Some? then Drop(l, k) else EvictSpec(l, cap)) + [d.(key := k)]
  }

  function InsertAll(l: seq<Desc>, cap: nat, items: seq<(Key, Desc)>): seq<Desc>
    decreases |items|
  {
    if items == [] then l
    else
      var n := |items| - 1;
      InsertSpec(InsertAll(l, cap, items[..n]), cap, items[n].0, items[n].1)
  }

  function LookupAll(l: seq<Desc>, keys: seq<Key>, now: nat): seq<Desc>
    decreases |keys|
  {
    if keys == [] then l else LookupSpec(LookupAll(l, keys[..|keys| - 1], now), keys[|keys| - 1], now)
  }

  /** The hits of a batch in order, as the cache shows them. */
  function Hits(l: seq<Desc>, keys: seq<Key>, now: nat): seq<Desc>
    decreases |keys|
  {
    if keys == [] then []
    else
      var d := Find(l, keys[|keys| - 1]);
      Hits(l, keys[..|keys| - 1], now) + if d.Some? then [d.value.(accessTime := now)] else []
  }

  function Misses(l: seq<Desc>, keys: seq<Key>): seq<Key>
    decreases |keys|
  {
    if keys == [] then []
    else Misses(l, keys[..|keys| - 1]) + if Find(l, keys[|keys| - 1]).Some? then [] else [keys[|keys| - 1]]
  }

  function DropAll(l: seq<Desc>, keys: seq<Key>): seq<Desc>
    decreases |keys|
  {
    if keys == [] then l else Drop(DropAll(l, keys[..|keys| - 1]), keys[|keys| - 1])
  }

  // ---------- lists of distinct keys ----------

  lemma {:induction false} FindAt(l: seq<Desc>, k: Key)
    ensures Find(l, k).Some? <==> k in KeysOf(l)
    ensures Find(l, k).Some? ==> Find(l, k).value.key == k && Find(l, k).value in l
  {
    if l != [] {
      FindAt(l[1..], k);
      assert KeysOf(l) == [l[0].key] + KeysOf(l[1..]);
    }
  }

  lemma {:induction false} DropKeys(l: seq<Desc>, k: Key)
    ensures KeysOf(Drop(l, k)) == Without(KeysOf(l), k)
  {
    if l != [] {
      assert KeysOf(l) == [l[0].key] + KeysOf(l[1..]);
      if l[0].key != k {
        DropKeys(l[1..], k);
        assert KeysOf([l[0]] + Drop(l[1..], k)) == [l[0].key] + KeysOf(Drop(l[1..], k));
      }
    }
  }

  lemma {:induction false} DropAt(l: seq<Desc>, i: nat)
    requires Wf(l) && i < |l|
    ensures Find(l, l[i].key) == Some(l[i]) && Drop(l, l[i].key) == l[..i] + l[i + 1..]
  {
    if i > 0 {
      NoDupAt(KeysOf(l), 0, i);
      assert KeysOf(l)[1..] == KeysOf(l[1..]);
      DropAt(l[1..], i - 1);
      assert l[1..][i - 1] == l[i] && l[..i] == [l[0]] + l[1..][..i - 1];
    }
  }

  /** The effective capacity: a cache of capacity 0 still holds the entry inserted last. */
  function Room(cap: nat): nat { Max(cap, 1) }

  ghost predicate Bounded(l: seq<Desc>, cap: nat) { Wf(l) && |l| <= Room(cap) }

  /** Making room drops at most the oldest entry. */
  lemma EvictDropsOldest(l: seq<Desc>, cap: nat)
    requires |l| <= Room(cap)
    ensures EvictSpec(l, cap) == if |l| == Room(cap) then l[1..] else l
  {
  }

  lemma {:induction false} FindAmong(a: seq<Desc>, b: seq<Desc>, k: Key)
    ensures Find(a + b, k) == if Find(a, k).Some? then Find(a, k) else Find(b, k)
  {
    if a == [] {
      assert a + b == b;
    } else {
      assert (a + b)[1..] == a[1..] + b;
      FindAmong(a[1..], b, k);
    }
  }

  lemma {:induction false} FindDropped(l: seq<Desc>, k: Key, j: Key)
    requires Wf(l)
    ensures Find(Drop(l, k), j) == if j == k then None else Find(l, j)
  {
    if l != [] {
      assert KeysOf(l)[1..] == KeysOf(l[1..]);
      if l[0].key == k {
        FindAt(l[1..], k);
      } else {
        FindDropped(l[1..], k, j);
        assert ([l[0]] + Drop(l[1..], k))[1..] == Drop(l[1..], k);
      }
    }
  }

  /** An insertion is found under its key as it was given. It costs another key its place only if the key is
      new and the cache holds as many as it may, and then only the least recently used. */
  lemma InsertIsFound(l: seq<Desc>, cap: nat, k: Key, d: Desc, j: Key)
    requires Wf(l) && |l| <= Max(cap, 1)
    ensures Find(InsertSpec(l, cap, k, d), k) == Some(d.(key := k))
    ensures j != k ==>
              Find(InsertSpec(l, cap, k, d), j)
              == if Find(l, k).None? && |l| == Max(cap, 1) && l[0].key == j then None else Find(l, j)
  {
    EvictDropsOldest(l, cap);
    var front := if Find(l, k).Some? then Drop(l, k) else EvictSpec(l, cap);
    FindAmong(front, [d.(key := k)], k);
    FindAmong(front, [d.(key := k)], j);
    assert [d.(key := k)][1..] == [];
    FindDropped(l, k, k);
    FindDropped(l, k, j);
    if Find(l, k).None? && |l| == Room(cap) {
      assert Drop(l, l[0].key) == l[1..];
      FindDropped(l, l[0].key, j);
      FindDropped(l, l[0].key, k);
    }
  }

  /** `d` is in the list with fewer than `n` entries used later. */
  ghost predicate AmongLast(l: seq<Desc>, d: Desc, n: nat) {
    exists p :: 0 <= p < |l| && l[p] == d && |l| - p <= n
  }

  lemma InsertKeepsLast(l: seq<Desc>, cap: nat, k: Key, x: Desc, d: Desc, n: nat)
    requires Wf(l) && |l| <= Room(cap) && d.key != k && AmongLast(l, d, n) && n < Room(cap)
    ensures AmongLast(InsertSpec(l, cap, k, x), d, n + 1)
  {
    EvictDropsOldest(l, cap);
    FindAt(l, k);
    if Find(l, k).Some? {
      var i :| 0 <= i < |l| && KeysOf(l)[i] == k;
      DropAt(l, i);
      assert Drop(l, k) == l[..i] + l[i + 1..];
      LastWithoutOne(l, i, x.(key := k), d, n);
    } else {
      assert l[0..] == l;
      LastAfterOne(l, if |l| == Room(cap) then 1 else 0, x.(key := k), d, n);
    }
  }

  lemma LastWithoutOne(l: seq<Desc>, i: nat, x: Desc, d: Desc, n: nat)
    requires i < |l| && l[i] != d && AmongLast(l, d, n)
    ensures AmongLast(l[..i] + l[i + 1..] + [x], d, n + 1)
  {
    var p :| 0 <= p < |l| && l[p] == d && |l| - p <= n;
    var m, q := l[..i] + l[i + 1..] + [x], if i < p then p - 1 else p;
    assert m[q] == d;
  }

  lemma LastAfterOne(l: seq<Desc>, from: nat, x: Desc, d: Desc, n: nat)
    requires from <= 1 && (from == 1 ==> n < |l|) && AmongLast(l, d, n)
    ensures AmongLast(l[from..] + [x], d, n + 1)
  {
    var p :| 0 <= p < |l| && l[p] == d && |l| - p <= n;
    assert (l[from..] + [x])[p - from] == d;
  }

  lemma {:induction false} LastInserted(l: seq<Desc>, cap: nat, items: seq<(Key, Desc)>, i: nat)
    requires Bounded(l, cap) && i < |items| && |items| - i <= Room(cap)
    requires forall j :: i < j < |items| ==> items[j].0 != items[i].0
    ensures AmongLast(InsertAll(l, cap, items), items[i].1.(key := items[i].0), |items| - i)
    decreases |items|
  {
    var n := |items| - 1;
    InsertAllBounded(l, cap, items[..n]);
    if i < n {
      LastInserted(l, cap, items[..n], i);
      InsertKeepsLast(InsertAll(l, cap, items[..n]), cap, items[n].0, items[n].1, items[i].1.(key := items[i].0),
                      n - i);
    } else {
      var m := InsertAll(l, cap, items);
      assert m[|m| - 1] == items[i].1.(key := items[i].0);
    }
  }

  /** The last keys inserted, as many as the cache may hold, are all found, each as it was given last. */
  lemma LastInsertedFound(l: seq<Desc>, cap: nat, items: seq<(Key, Desc)>, i: nat)
    requires Wf(l) && |l| <= Max(cap, 1) && i < |items| && |items| - i <= Max(cap, 1)
    requires forall j :: i < j < |items| ==> items[j].0 != items[i].0
    ensures Find(InsertAll(l, cap, items), items[i].0) == Some(items[i].1.(key := items[i].0))
  {
    LastInserted(l, cap, items, i);
    InsertAllBounded(l, cap, items);
    var m, d := InsertAll(l, cap, items), items[i].1.(key := items[i].0);
    var p :| 0 <= p < |m| && m[p] == d && |m| - p <= |items| - i;
    DropAt(m, p);
  }

  lemma {:induction false} InsertAllBounded(l: seq<Desc>, cap: nat, items: seq<(Key, Desc)>)
    requires Bounded(l, cap)
    ensures Bounded(InsertAll(l, cap, items), cap)
    decreases |items|
  {
    if items != [] {
      var n := |items| - 1;
      InsertAllBounded(l, cap, items[..n]);
      ApplyBounded(InsertAll(l, cap, items[..n]), cap, InsertOp(items[n].0, items[n].1));
    }
  }

  lemma AppendWf(l: seq<Desc>, d: Desc)
    requires Wf(l) && d.key !in KeysOf(l)
    ensures Wf(l + [d]) && KeysOf(l + [d]) == KeysOf(l) + [d.key]
  {
    assert KeysOf(l + [d]) == KeysOf(l) + [d.key];
    NoDupAppend(KeysOf(l), d.key);
  }

  lemma TailWf(l: seq<Desc>)
    requires Wf(l) && l != []
    ensures Wf(l[1..]) && l[0].key !in KeysOf(l[1..]) && KeysOf(l) == [l[0].key] + KeysOf(l[1..])
  {
    assert KeysOf(l)[1..] == KeysOf(l[1..]);
  }

  /** An entry moved to the back, changed or not. */
  lemma MovedBack(l: seq<Desc>, d: Desc)
    requires Wf(l)
    ensures Wf(Drop(l, d.key) + [d]) && KeysOf(Drop(l, d.key) + [d]) == Without(KeysOf(l), d.key) + [d.key]
    ensures |Drop(l, d.key) + [d]| == |l| + if d.key in KeysOf(l) then 0 else 1
  {
    DropKeys(l, d.key);
    WithoutNoDup(KeysOf(l), d.key);
    AppendWf(Drop(l, d.key), d);
    assert |Drop(l, d.key)| == |KeysOf(Drop(l, d.key))|;
  }

  // ---------- runs ----------

  datatype CacheOp = LookupOp(key: Key, now: nat) | InsertOp(key: Key, desc: Desc) | InvalidateOp(key: Key) | ClearOp

  function Apply(l: seq<Desc>, cap: nat, op: CacheOp): seq<Desc> {
    match op
    case LookupOp(k, now) => LookupSpec(l, k, now)
    case InsertOp(k, d) => InsertSpec(l, cap, k, d)
    case InvalidateOp(k) => Drop(l, k)
    case ClearOp => []
  }

  function Run(cap: nat, ops: seq<CacheOp>): seq<Desc>
    decreases |ops|
  {
    if ops == [] then [] else Apply(Run(cap, ops[..|ops| - 1]), cap, ops[|ops| - 1])
  }

  /** Every operation keeps the keys distinct and the size within the effective capacity. */
  lemma ApplyBounded(l: seq<Desc>, cap: nat, op: CacheOp)
    requires Bounded(l, cap)
    ensures Bounded(Apply(l, cap, op), cap)
  {
    match op
    case LookupOp(k, now) =>
      FindAt(l, k);
      if Find(l, k).Some? { MovedBack(l, Find(l, k).value.(accessTime := now)); }
    case InsertOp(k, d) =>
      FindAt(l, k);
      if Find(l, k).Some? {
        MovedBack(l, d.(key := k));
      } else {
        EvictDropsOldest(l, cap);
        if l != [] { TailWf(l); }
        AppendWf(EvictSpec(l, cap), d.(key := k));
      }
    case InvalidateOp(k) =>
      DropKeys(l, k);
      WithoutNoDup(KeysOf(l), k);
      assert |Drop(l, k)| == |KeysOf(Drop(l, k))|;
    case ClearOp => assert KeysOf([]) == [];
  }

  lemma {:induction false} RunBounded(cap: nat, ops: seq<CacheOp>)
    ensures Bounded(Run(cap, ops), cap)
    decreases |ops|
  {
    if ops == [] {
      assert KeysOf([]) == [];
    } else {
      RunBounded(cap, ops[..|ops| - 1]);
      ApplyBounded(Run(cap, ops[..|ops| - 1]), cap, ops[|ops| - 1]);
    }
  }

  // ---------- the victim is the least recently used ----------

  /** An insertion uses its key, and so does a lookup that hits. */
  predicate Uses(l: seq<Desc>, op: CacheOp, k: Key) {
    match op
    case LookupOp(j, _) => j == k && Find(l, k).Some?
    case InsertOp(j, _) => j == k
    case _ => false
  }

  /** The number of the last operation that used `k`, counting from 1; 0 when none did. */
  function LastUse(cap: nat, ops: seq<CacheOp>, k: Key): nat
    decreases |ops|
  {
    if ops == [] then 0
    else if Uses(Run(cap, ops[..|ops| - 1]), ops[|ops| - 1], k) then |ops|
    else LastUse(cap, ops[..|ops| - 1], k)
  }

  ghost predicate ByRecency(cap: nat, ops: seq<CacheOp>, l: seq<Desc>) {
    forall i, j :: 0 <= i < j < |l| ==> LastUse(cap, ops, l[i].key) < LastUse(cap, ops, l[j].key)
  }

  lemma {:induction false} LastUseBound(cap: nat, ops: seq<CacheOp>, k: Key)
    ensures LastUse(cap, ops, k) <= |ops|
  {
    if ops != [] { LastUseBound(cap, ops[..|ops| - 1], k); }
  }

  lemma DropByRecency(cap: nat, ops: seq<CacheOp>, l: seq<Desc>, k: Key)
    requires Wf(l) && ByRecency(cap, ops, l)
    ensures ByRecency(cap, ops, Drop(l, k)) && k !in KeysOf(Drop(l, k))
  {
    DropKeys(l, k);
    WithoutNoDup(KeysOf(l), k);
    if k in KeysOf(l) {
      var p :| 0 <= p < |l| && KeysOf(l)[p] == k;
      DropAt(l, p);
      GapByRecency(cap, ops, l, p);
    } else {
      DropAbsent(l, k);
    }
  }

  lemma GapByRecency(cap: nat, ops: seq<CacheOp>, l: seq<Desc>, p: nat)
    requires ByRecency(cap, ops, l) && p < |l|
    ensures ByRecency(cap, ops, l[..p] + l[p + 1..])
  {
    var r := l[..p] + l[p + 1..];
    forall i, j | 0 <= i < j < |r| ensures LastUse(cap, ops, r[i].key) < LastUse(cap, ops, r[j].key) {
      assert r[i] == l[if i < p then i else i + 1] && r[j] == l[if j < p then j else j + 1];
    }
  }

  /** An operation that uses none of them leaves the order of the entries. */
  lemma StillByRecency(cap: nat, ops: seq<CacheOp>, l: seq<Desc>)
    requires ops != [] && ByRecency(cap, ops[..|ops| - 1], l)
    requires forall i :: 0 <= i < |l| ==> !Uses(Run(cap, ops[..|ops| - 1]), ops[|ops| - 1], l[i].key)
    ensures ByRecency(cap, ops, l)
  {
    forall i, j | 0 <= i < j < |l| ensures LastUse(cap, ops, l[i].key) < LastUse(cap, ops, l[j].key) {
      assert LastUse(cap, ops, l[i].key) == LastUse(cap, ops[..|ops| - 1], l[i].key);
      assert LastUse(cap, ops, l[j].key) == LastUse(cap, ops[..|ops| - 1], l[j].key);
    }
  }

  /** What was just used goes last. */
  lemma UsedGoesLast(cap: nat, ops: seq<CacheOp>, rest: seq<Desc>, x: Desc)
    requires ops != [] && ByRecency(cap, ops, rest) && Uses(Run(cap, ops[..|ops| - 1]), ops[|ops| - 1], x.key)
    requires forall i :: 0 <= i < |rest| ==> !Uses(Run(cap, ops[..|ops| - 1]), ops[|ops| - 1], rest[i].key)
    ensures ByRecency(cap, ops, rest + [x])
  {
    var l := rest + [x];
    forall i, j | 0 <= i < j < |l| ensures LastUse(cap, ops, l[i].key) < LastUse(cap, ops, l[j].key) {
      if j == |rest| {
        LastUseBound(cap, ops[..|ops| - 1], l[i].key);
        assert !Uses(Run(cap, ops[..|ops| - 1]), ops[|ops| - 1], rest[i].key);
      }
    }
  }

  lemma AbsentKeys(l: seq<Desc>, k: Key)
    requires k !in KeysOf(l)
    ensures forall i :: 0 <= i < |l| ==> l[i].key != k
  {
    forall i | 0 <= i < |l| ensures l[i].key != k {
      assert KeysOf(l)[i] in KeysOf(l);
    }
  }

  /** Making room leaves the order, and brings in no key. */
  lemma OldestGone(cap: nat, ops: seq<CacheOp>, l: seq<Desc>, k: Key)
    requires |l| <= Room(cap) && ByRecency(cap, ops, l) && k !in KeysOf(l)
    ensures ByRecency(cap, ops, EvictSpec(l, cap)) && k !in KeysOf(EvictSpec(l, cap))
  {
    EvictDropsOldest(l, cap);
    if |l| == Room(cap) {
      assert KeysOf(l) == [l[0].key] + KeysOf(l[1..]);
      forall i, j | 0 <= i < j < |l[1..]| ensures LastUse(cap, ops, l[1..][i].key) < LastUse(cap, ops, l[1..][j].key) {
        assert l[1..][i] == l[i + 1] && l[1..][j] == l[j + 1];
      }
    }
  }

  /** Inserting a key the cache holds. */
  lemma InsertHit(cap: nat, ops: seq<CacheOp>, l: seq<Desc>, k: Key, d: Desc)
    requires ops != [] && ops[|ops| - 1] == InsertOp(k, d) && l == Run(cap, ops[..|ops| - 1])
    requires Wf(l) && ByRecency(cap, ops[..|ops| - 1], l) && k in KeysOf(l)
    ensures ByRecency(cap, ops, Drop(l, k) + [d.(key := k)])
  {
    DropByRecency(cap, ops[..|ops| - 1], l, k);
    UseLast(cap, ops, Drop(l, k), d.(key := k));
  }

  /** Inserting a key the cache lacks. */
  lemma InsertMiss(cap: nat, ops: seq<CacheOp>, l: seq<Desc>, k: Key, d: Desc)
    requires ops != [] && ops[|ops| - 1] == InsertOp(k, d) && l == Run(cap, ops[..|ops| - 1])
    requires |l| <= Room(cap) && ByRecency(cap, ops[..|ops| - 1], l) && k !in KeysOf(l)
    ensures ByRecency(cap, ops, EvictSpec(l, cap) + [d.(key := k)])
  {
    OldestGone(cap, ops[..|ops| - 1], l, k);
    UseLast(cap, ops, EvictSpec(l, cap), d.(key := k));
  }

  lemma InsertByRecency(cap: nat, ops: seq<CacheOp>, l: seq<Desc>, k: Key, d: Desc)
    requires ops != [] && ops[|ops| - 1] == InsertOp(k, d) && l == Run(cap, ops[..|ops| - 1])
    requires Bounded(l, cap) && ByRecency(cap, ops[..|ops| - 1], l)
    ensures ByRecency(cap, ops, InsertSpec(l, cap, k, d))
  {
    FindAt(l, k);
    if Find(l, k).Some? {
      InsertHit(cap, ops, l, k, d);
    } else {
      InsertMiss(cap, ops, l, k, d);
    }
  }

  lemma LookupByRecency(cap: nat, ops: seq<CacheOp>, l: seq<Desc>, k: Key, now: nat)
    requires ops != [] && ops[|ops| - 1] == LookupOp(k, now) && l == Run(cap, ops[..|ops| - 1])
    requires Bounded(l, cap) && ByRecency(cap, ops[..|ops| - 1], l)
    ensures ByRecency(cap, ops, LookupSpec(l, k, now))
  {
    FindAt(l, k);
    if Find(l, k).Some? {
      DropByRecency(cap, ops[..|ops| - 1], l, k);
      UseLast(cap, ops, Drop(l, k), Find(l, k).value.(accessTime := now));
    } else {
      StillByRecency(cap, ops, l);
    }
  }

  /** The entry used by the operation goes behind the others. */
  lemma UseLast(cap: nat, ops: seq<CacheOp>, rest: seq<Desc>, x: Desc)
    requires ops != [] && ByRecency(cap, ops[..|ops| - 1], rest)
      && (ops[|ops| - 1].InsertOp? || ops[|ops| - 1].LookupOp?)
    requires Uses(Run(cap, ops[..|ops| - 1]), ops[|ops| - 1], x.key) && x.key !in KeysOf(rest)
    ensures ByRecency(cap, ops, rest + [x])
  {
    AbsentKeys(rest, x.key);
    StillByRecency(cap, ops, rest);
    UsedGoesLast(cap, ops, rest, x);
  }

  /** Over every run the list is ordered by last use; so the entry an insertion pushes out, the
      first, is the least recently used of all. */
  lemma {:induction false} ListIsRecency(cap: nat, ops: seq<CacheOp>)
    ensures ByRecency(cap, ops, Run(cap, ops))
    decreases |ops|
  {
    if ops != [] {
      var before := ops[..|ops| - 1];
      ListIsRecency(cap, before);
      RunBounded(cap, before);
      match ops[|ops| - 1]
      case LookupOp(k, now) => LookupByRecency(cap, ops, Run(cap, before), k, now);
      case InsertOp(k, d) => InsertByRecency(cap, ops, Run(cap, before), k, d);
      case InvalidateOp(k) =>
        DropByRecency(cap, before, Run(cap, before), k);
        StillByRecency(cap, ops, Drop(Run(cap, before), k));
      case ClearOp =>
    }
  }

  /** `a` is `b` with some entries left out. */
  ghost predicate Subseq(a: seq<Desc>, b: seq<Desc>) {
    a == [] || (b != [] && if a[0] == b[0] then Subseq(a[1..], b[1..]) else Subseq(a, b[1..]))
  }

  lemma {:induction false} SubseqIn(a: seq<Desc>, b: seq<Desc>, x: Desc)
    requires Subseq(a, b) && x in a
    ensures x in b
  {
    if a[0] == b[0] {
      if x != a[0] { SubseqIn(a[1..], b[1..], x); }
    } else {
      SubseqIn(a, b[1..], x);
    }
  }

  lemma {:induction false} SubseqTail(a: seq<Desc>, b: seq<Desc>)
    requires Subseq(a, b) && a != []
    ensures Subseq(a[1..], b) && Subseq(a[1..], b[1..])
  {
    if a[0] == b[0] {
      if a[1..] != [] {
        if a[1] == b[0] { SubseqTail(a[1..], b[1..]); }
      }
    } else {
      SubseqTail(a, b[1..]);
      if a[1..] != [] && a[1] == b[0] { SubseqTail(a[1..], b[1..]); }
    }
  }

  lemma {:induction false} SubseqAppend(a: seq<Desc>, b: seq<Desc>, x: Desc)
    requires Subseq(a, b)
    ensures Subseq(a + [x], b + [x])
  {
    if b == [] {
      assert a + [x] == [x] && b + [x] == [x];
    } else if a == [] {
      assert (b + [x])[1..] == b[1..] + [x];
      SubseqAppend(a, b[1..], x);
      assert [] + [x] == [x];
      if b[0] == x { assert Subseq([x][1..], (b + [x])[1..]); }
    } else if a[0] == b[0] {
      SubseqAppend(a[1..], b[1..], x);
      assert (a + [x])[1..] == a[1..] + [x] && (b + [x])[1..] == b[1..] + [x];
    } else {
      SubseqAppend(a, b[1..], x);
      assert (b + [x])[1..] == b[1..] + [x];
    }
  }

  /** Leaving out a key on both sides. */
  lemma {:induction false} SubseqDrop(a: seq<Desc>, b: seq<Desc>, k: Key)
    requires Subseq(a, b) && Wf(a) && Wf(b)
    ensures Subseq(Drop(a, k), Drop(b, k))
  {
    if a != [] {
      TailWf(a);
      TailWf(b);
      if a[0] == b[0] {
        if a[0].key != k { SubseqDrop(a[1..], b[1..], k); }
      } else if b[0].key == k {
        DropAbsentOrTail(a, b[1..], k);
      } else {
        SubseqDrop(a, b[1..], k);
        var c := Drop(a, k);
        if c != [] && c[0] == b[0] {
          SubseqTail(c, Drop(b[1..], k));
        }
      }
    }
  }

  /** A key the larger list lacks the smaller lacks too. */
  lemma DropAbsentOrTail(a: seq<Desc>, b: seq<Desc>, k: Key)
    requires Subseq(a, b) && k !in KeysOf(b)
    ensures Drop(a, k) == a
  {
    if k in KeysOf(a) { SubseqKeys(a, b, k); }
    DropAbsent(a, k);
  }

  lemma {:induction false} DropAbsent(l: seq<Desc>, k: Key)
    requires k !in KeysOf(l)
    ensures Drop(l, k) == l
  {
    if l != [] {
      assert KeysOf(l) == [l[0].key] + KeysOf(l[1..]);
      DropAbsent(l[1..], k);
    }
  }

  lemma SubseqKeys(a: seq<Desc>, b: seq<Desc>, k: Key)
    requires Subseq(a, b) && k in KeysOf(a)
    ensures k in KeysOf(b)
  {
    var i :| 0 <= i < |a| && KeysOf(a)[i] == k;
    SubseqIn(a, b, a[i]);
    var j :| 0 <= j < |b| && b[j] == a[i];
    assert KeysOf(b)[j] == k;
  }

  /** An entry of the smaller list is the larger list's entry of that key. */
  lemma SubseqFind(a: seq<Desc>, b: seq<Desc>, k: Key)
    requires Subseq(a, b) && Wf(b) && Find(a, k).Some?
    ensures Find(b, k) == Find(a, k)
  {
    FindAt(a, k);
    var d := Find(a, k).value;
    SubseqIn(a, b, d);
    var j :| 0 <= j < |b| && b[j] == d;
    DropAt(b, j);
  }

  // ---------- inclusion ----------

  /** The smaller cache's list is part of the larger's, and the larger has at least as much room
      left. */
  ghost predicate Included(l1: seq<Desc>, c1: nat, l2: seq<Desc>, c2: nat) {
    && Bounded(l1, c1) && Bounded(l2, c2) && Subseq(l1, l2) && Room(c1) - |l1| <= Room(c2) - |l2|
  }

  /** Making room in both keeps the inclusion, and one place free in each. */
  lemma EvictIncluded(l1: seq<Desc>, c1: nat, l2: seq<Desc>, c2: nat)
    requires Included(l1, c1, l2, c2)
    ensures
      var (e1, e2) := (EvictSpec(l1, c1), EvictSpec(l2, c2));
      && Subseq(e1, e2) && Wf(e1) && Wf(e2) && 1 <= Room(c1) - |e1| <= Room(c2) - |e2|
      && (forall k :: k in KeysOf(e2) ==> k in KeysOf(l2))
  {
    EvictDropsOldest(l1, c1);
    EvictDropsOldest(l2, c2);
    if l1 != [] { TailWf(l1); SubseqTail(l1, l2); }
    if l2 != [] { TailWf(l2); }
  }

  lemma InsertIncluded(l1: seq<Desc>, c1: nat, l2: seq<Desc>, c2: nat, k: Key, d: Desc)
    requires Included(l1, c1, l2, c2)
    ensures Included(InsertSpec(l1, c1, k, d), c1, InsertSpec(l2, c2, k, d), c2)
  {
    var x := d.(key := k);
    ApplyBounded(l1, c1, InsertOp(k, d));
    ApplyBounded(l2, c2, InsertOp(k, d));
    FindAt(l1, k);
    FindAt(l2, k);
    if Find(l1, k).Some? {
      SubseqFind(l1, l2, k);
      SubseqDrop(l1, l2, k);
      SubseqAppend(Drop(l1, k), Drop(l2, k), x);
      MovedBack(l1, x);
      MovedBack(l2, x);
    } else if Find(l2, k).Some? {
      SubseqDrop(l1, l2, k);
      DropAbsent(l1, k);
      MovedBack(l2, x);
      EvictDropsOldest(l1, c1);
      if l1 != [] { SubseqTail(l1, Drop(l2, k)); }
      SubseqAppend(EvictSpec(l1, c1), Drop(l2, k), x);
    } else {
      EvictIncluded(l1, c1, l2, c2);
      SubseqAppend(EvictSpec(l1, c1), EvictSpec(l2, c2), x);
    }
  }

  lemma LookupIncluded(l1: seq<Desc>, c1: nat, l2: seq<Desc>, c2: nat, k: Key, now: nat)
    requires Included(l1, c1, l2, c2)
    ensures Included(LookupSpec(l1, k, now), c1, LookupSpec(l2, k, now), c2)
  {
    ApplyBounded(l1, c1, LookupOp(k, now));
    ApplyBounded(l2, c2, LookupOp(k, now));
    FindAt(l1, k);
    FindAt(l2, k);
    if Find(l1, k).Some? {
      var x := Find(l1, k).value.(accessTime := now);
      SubseqFind(l1, l2, k);
      SubseqDrop(l1, l2, k);
      SubseqAppend(Drop(l1, k), Drop(l2, k), x);
      MovedBack(l1, x);
      MovedBack(l2, x);
    } else if Find(l2, k).Some? {
      var x := Find(l2, k).value.(accessTime := now);
      SubseqDrop(l1, l2, k);
      DropAbsent(l1, k);
      MovedBack(l2, x);
      SubseqInit(l1, Drop(l2, k), x);
    }
  }

  lemma {:induction false} SubseqInit(a: seq<Desc>, b: seq<Desc>, x: Desc)
    requires Subseq(a, b)
    ensures Subseq(a, b + [x])
  {
    if a != [] {
      assert (b + [x])[1..] == b[1..] + [x];
      SubseqInit(if a[0] == b[0] then a[1..] else a, b[1..], x);
    }
  }

  lemma DropIncluded(l1: seq<Desc>, c1: nat, l2: seq<Desc>, c2: nat, k: Key)
    requires Included(l1, c1, l2, c2)
    ensures Included(Drop(l1, k), c1, Drop(l2, k), c2)
  {
    ApplyBounded(l1, c1, InvalidateOp(k));
    ApplyBounded(l2, c2, InvalidateOp(k));
    SubseqDrop(l1, l2, k);
    DropKeys(l1, k);
    DropKeys(l2, k);
    WithoutNoDup(KeysOf(l1), k);
    WithoutNoDup(KeysOf(l2), k);
    assert |Drop(l1, k)| == |KeysOf(Drop(l1, k))| && |Drop(l2, k)| == |KeysOf(Drop(l2, k))|;
    if k in KeysOf(l1) { SubseqKeys(l1, l2, k); }
  }

  /** LRU inclusion. Whatever the trace, the list of a smaller cache is part of the list of a
      larger one, in the same order and with the same descriptors; so it never hits where the
      larger one misses. */
  lemma {:induction false} SmallerIsIncluded(c1: nat, c2: nat, ops: seq<CacheOp>)
    requires c1 <= c2
    ensures Included(Run(c1, ops), c1, Run(c2, ops), c2)
    decreases |ops|
  {
    if ops == [] {
      assert KeysOf([]) == [];
    } else {
      var before, op := ops[..|ops| - 1], ops[|ops| - 1];
      SmallerIsIncluded(c1, c2, before);
      var l1, l2 := Run(c1, before), Run(c2, before);
      match op
      case LookupOp(k, now) => LookupIncluded(l1, c1, l2, c2, k, now);
      case InsertOp(k, d) => InsertIncluded(l1, c1, l2, c2, k, d);
      case InvalidateOp(k) => DropIncluded(l1, c1, l2, c2, k);
      case ClearOp => assert KeysOf([]) == [];
    }
  }

  lemma SmallerHitsLess(c1: nat, c2: nat, ops: seq<CacheOp>, k: Key)
    requires c1 <= c2 && Find(Run(c1, ops), k).Some?
    ensures Find(Run(c2, ops), k) == Find(Run(c1, ops), k)
  {
    SmallerIsIncluded(c1, c2, ops);
    SubseqFind(Run(c1, ops), Run(c2, ops), k);
  }

  // ---------- the cache itself ----------

  /** A node of the list; the map points at it. */
  class ListNode {
    var desc: Desc

    constructor (d: Desc)
      ensures desc == d
    {
      desc := d;
    }
  }

  /** The map and the list agree: the same keys, each mapped to its own node. */
  ghost predicate Agree(view: seq<Desc>, list: seq<ListNode>, cache: map<Key, ListNode>) {
    && |list| == |view| && Wf(view)
    && (forall i :: 0 <= i < |view| ==> view[i].key in cache && cache[view[i].key] == list[i])
    && (forall k :: k in cache ==> k in KeysOf(view))
  }

  class KeyDescCache {
    const capacity: nat
    var lruList: seq<ListNode>
    var cache: map<Key, ListNode>
    ghost var view: seq<Desc>
    ghost var nodes: set<ListNode>

    /** The nodes hold the descriptors. */
    ghost predicate Shows()
      reads this, nodes
    {
      |lruList| == |view| && forall i :: 0 <= i < |lruList| ==> lruList[i] in nodes && lruList[i].desc == view[i]
    }

    ghost predicate Valid()
      reads this, nodes
    {
      Agree(view, lruList, cache) && Shows() && |view| <= Room(capacity)
    }

    constructor (capacity: nat)
      ensures Valid() && view == [] && this.capacity == capacity && nodes == {}
    {
      this.capacity := capacity;
      lruList, cache, view, nodes := [], map[], [], {};
      assert KeysOf([]) == [];
    }

    /** The splice to the end, with what is written to the node. */
    method MoveToBack(k: Key, d: Desc)
      requires Valid() && k in cache && d.key == k
      modifies this, nodes
      ensures Valid() && nodes == old(nodes) && view == Drop(old(view), k) + [d]
    {
      var node := cache[k];
      Moved(view, lruList, cache, nodes, k, d);
      lruList := Without(lruList, node) + [node];
      node.desc := d;
      view := Drop(view, k) + [d];
    }

    method Lookup(k: Key, now: nat) returns (r: Option<Desc>)
      requires Valid()
      modifies this, nodes
      ensures Valid() && nodes == old(nodes) && view == LookupSpec(old(view), k, now)
      ensures r == if Find(old(view), k).Some? then Some(Find(old(view), k).value.(accessTime := now)) else None
    {
      if k !in cache {
        Absent(view, lruList, cache, k);
        return None;
      }
      ghost var i := NodePlace(view, lruList, cache, k);
      var d := cache[k].desc.(accessTime := now);
      MoveToBack(k, d);
      return Some(d);
    }

    /** The answers split the keys: hits in order with their fresh access time, misses in order. */
    method BatchLookup(keys: seq<Key>, now: nat) returns (hits: seq<Desc>, misses: seq<Key>)
      requires Valid()
      modifies this, nodes
      ensures Valid() && nodes == old(nodes) && view == LookupAll(old(view), keys, now)
      ensures hits == Hits(old(view), keys, now) && misses == Misses(old(view), keys)
    {
      hits, misses := [], [];
      for i := 0 to |keys|
        invariant Valid() && nodes == old(nodes) && view == LookupAll(old(view), keys[..i], now)
        invariant hits == Hits(old(view), keys[..i], now) && misses == Misses(old(view), keys[..i])
      {
        assert keys[..i + 1][..i] == keys[..i];
        LookupAllFinds(old(view), keys[..i], now, keys[i]);
        var d := Lookup(keys[i], now);
        if d.Some? {
          hits := hits + [d.value];
        } else {
          misses := misses + [keys[i]];
        }
      }
      assert keys[..|keys|] == keys;
    }

    method PopFront()
      requires Valid() && lruList != []
      modifies this
      ensures Valid() && nodes == old(nodes) && view == old(view)[1..]
    {
      FrontGone(view, lruList, cache);
      cache := cache - {lruList[0].desc.key};
      lruList := lruList[1..];
      view := view[1..];
    }

    /** Drops from the front until there is a place free. */
    method EvictIfNeeded()
      requires Valid()
      modifies this
      ensures Valid() && nodes == old(nodes) && view == EvictSpec(old(view), capacity)
    {
      CacheSize(view, lruList, cache);
      while |cache| >= capacity && lruList != []
        invariant Valid() && nodes == old(nodes) && |cache| == |view|
        invariant EvictSpec(view, capacity) == EvictSpec(old(view), capacity)
        decreases |lruList|
      {
        PopFront();
        CacheSize(view, lruList, cache);
      }
    }

    /** An absent key: make room, then a new node at the back. */
    method Append(k: Key, d: Desc)
      requires Valid() && k !in cache && |view| < Room(capacity) && d.key == k
      modifies this
      ensures Valid() && fresh(nodes - old(nodes)) && view == old(view) + [d]
    {
      Absent(view, lruList, cache, k);
      var node := new ListNode(d);
      AppendWf(view, d);
      Appended(view, lruList, cache, d, node);
      lruList := lruList + [node];
      nodes := nodes + {node};
      cache := cache[k := node];
      view := view + [d];
    }

    method Insert(k: Key, d: Desc)
      requires Valid()
      modifies this, nodes
      ensures Valid() && fresh(nodes - old(nodes)) && view == InsertSpec(old(view), capacity, k, d)
    {
      if k in cache {
        ghost var i := NodePlace(view, lruList, cache, k);
        MoveToBack(k, d.(key := k));
      } else {
        Absent(view, lruList, cache, k);
        EvictDropsOldest(view, capacity);
        EvictIfNeeded();
        StillAbsent(old(view), old(lruList), old(cache), view, lruList, cache, capacity, k);
        Append(k, d.(key := k));
      }
    }

    /** The same, item by item. */
    method BatchInsert(items: seq<(Key, Desc)>)
      requires Valid()
      modifies this, nodes
      ensures Valid() && fresh(nodes - old(nodes)) && view == InsertAll(old(view), capacity, items)
    {
      for i := 0 to |items|
        invariant Valid() && fresh(nodes - old(nodes)) && view == InsertAll(old(view), capacity, items[..i])
      {
        assert items[..i + 1][..i] == items[..i];
        Insert(items[i].0, items[i].1);
      }
      assert items[..|items|] == items;
    }

    method Invalidate(k: Key)
      requires Valid()
      modifies this
      ensures Valid() && nodes == old(nodes) && view == Drop(old(view), k)
    {
      if k in cache {
        ghost var i := Removed(view, lruList, cache, k);
        lruList := Without(lruList, cache[k]);
        cache := cache - {k};
        view := Drop(view, k);
      } else {
        Absent(view, lruList, cache, k);
        DropAbsent(view, k);
      }
    }

    method BatchInvalidate(keys: seq<Key>)
      requires Valid()
      modifies this
      ensures Valid() && nodes == old(nodes) && view == DropAll(old(view), keys)
    {
      for i := 0 to |keys|
        invariant Valid() && nodes == old(nodes) && view == DropAll(old(view), keys[..i])
      {
        assert keys[..i + 1][..i] == keys[..i];
        Invalidate(keys[i]);
      }
      assert keys[..|keys|] == keys;
    }

    /** The map's size, which is the list's. */
    method Size() returns (n: nat)
      requires Valid()
      ensures n == |view| <= Room(capacity)
    {
      CacheSize(view, lruList, cache);
      n := |cache|;
    }

    method Clear()
      modifies this
      ensures Valid() && nodes == old(nodes) && view == []
    {
      cache, lruList, view := map[], [], [];
      assert KeysOf([]) == [];
    }
  }

  // ---------- the map follows the list ----------

  lemma NodesDistinct(v: seq<Desc>, l: seq<ListNode>, cache: map<Key, ListNode>)
    requires Agree(v, l, cache) && forall i :: 0 <= i < |l| ==> l[i].desc == v[i]
    ensures NoDup(l)
  {
    forall i, j | 0 <= i < j < |l| ensures l[i] != l[j] {
      NoDupAt(KeysOf(v), i, j);
    }
    NoDupFromIndices(l);
  }

  /** Where a cached key's node is in the list. */
  lemma NodePlace(v: seq<Desc>, l: seq<ListNode>, cache: map<Key, ListNode>, k: Key) returns (i: nat)
    requires Agree(v, l, cache) && k in cache && forall i :: 0 <= i < |l| ==> l[i].desc == v[i]
    ensures i < |v| && v[i].key == k && l[i] == cache[k]
    ensures Find(v, k) == Some(v[i]) && Drop(v, k) == v[..i] + v[i + 1..]
    ensures Without(l, cache[k]) == l[..i] + l[i + 1..] && NoDup(l)
  {
    i :| 0 <= i < |v| && KeysOf(v)[i] == k;
    DropAt(v, i);
    NodesDistinct(v, l, cache);
    WithoutAt(l, i);
  }

  lemma Absent(v: seq<Desc>, l: seq<ListNode>, cache: map<Key, ListNode>, k: Key)
    requires Agree(v, l, cache) && k !in cache
    ensures Find(v, k) == None && k !in KeysOf(v)
  {
    FindAt(v, k);
    forall i | 0 <= i < |v| ensures KeysOf(v)[i] != k {
      assert v[i].key in cache;
    }
  }

  lemma CacheSize(v: seq<Desc>, l: seq<ListNode>, cache: map<Key, ListNode>)
    requires Agree(v, l, cache)
    ensures |cache| == |v|
  {
    var ks := KeysOf(v);
    forall k ensures k in cache.Keys <==> k in (set x | x in ks) {
      if k in ks {
        var i :| 0 <= i < |v| && ks[i] == k;
        assert v[i].key in cache;
      }
    }
    assert cache.Keys == set x | x in ks;
    NoDupMultiset(ks);
    assert |multiset(ks)| == |ks|;
  }

  /** The list `m` showing `w`, with `node` at its back still to be written. */
  ghost predicate Spliced(n: nat, cache: map<Key, ListNode>, nodes: set<ListNode>, node: ListNode, w: seq<Desc>,
                          m: seq<ListNode>)
    reads nodes
  {
    && Agree(w, m, cache) && |w| == n
    && forall j :: 0 <= j < |m| - 1 ==> m[j] in nodes && m[j] != node && m[j].desc == w[j]
  }

  /** After a splice to the back the map still points right, and the nodes before the last show
      what they showed. */
  lemma Moved(v: seq<Desc>, l: seq<ListNode>, cache: map<Key, ListNode>, nodes: set<ListNode>, k: Key, d: Desc)
    requires Agree(v, l, cache) && k in cache && d.key == k
    requires forall i :: 0 <= i < |l| ==> l[i] in nodes && l[i].desc == v[i]
    ensures cache[k] in nodes
    ensures Spliced(|v|, cache, nodes, cache[k], Drop(v, k) + [d], Without(l, cache[k]) + [cache[k]])
  {
    var i := NodePlace(v, l, cache, k);
    MovedBack(v, d);
    MovedParts(v, l, cache, nodes, i, d, Drop(v, k), Without(l, cache[k]));
  }

  lemma MovedParts(v: seq<Desc>, l: seq<ListNode>, cache: map<Key, ListNode>, nodes: set<ListNode>, i: nat, d: Desc,
                   dropped: seq<Desc>, rest: seq<ListNode>)
    requires Agree(v, l, cache) && i < |v| && d.key == v[i].key && NoDup(l) && Wf(dropped + [d])
    requires dropped == v[..i] + v[i + 1..] && rest == l[..i] + l[i + 1..]
    requires forall j :: 0 <= j < |l| ==> l[j] in nodes && l[j].desc == v[j]
    ensures Spliced(|v|, cache, nodes, l[i], dropped + [d], rest + [l[i]])
  {
    var w, m := dropped + [d], rest + [l[i]];
    assert w[..|w| - 1] == dropped;
    MapFollows(v, l, cache, i, w, m);
    NodesKeepShowing(v, l, nodes, i, w, m);
  }

  lemma NodesKeepShowing(v: seq<Desc>, l: seq<ListNode>, nodes: set<ListNode>, i: nat, w: seq<Desc>, m: seq<ListNode>)
    requires |l| == |v| == |w| && NoDup(l) && i < |l| && forall j :: 0 <= j < |l| ==> l[j] in nodes && l[j].desc == v[j]
    requires w[..|w| - 1] == v[..i] + v[i + 1..] && m == l[..i] + l[i + 1..] + [l[i]]
    ensures forall j :: 0 <= j < |m| - 1 ==> m[j] in nodes && m[j] != l[i] && m[j].desc == w[j]
  {
    forall j | 0 <= j < |m| - 1 ensures m[j] in nodes && m[j] != l[i] && m[j].desc == w[j] {
      MovedAt(v, l, i, j);
      assert w[j] == w[..|w| - 1][j];
    }
  }

  lemma MovedAt(v: seq<Desc>, l: seq<ListNode>, i: nat, j: nat)
    requires |l| == |v| && NoDup(l) && i < |l| && j < |l| - 1
    ensures
      var p := if j < i then j else j + 1;
      (v[..i] + v[i + 1..])[j] == v[p] && (l[..i] + l[i + 1..])[j] == l[p] != l[i]
  {
    if j < i { NoDupAt(l, j, i); } else { NoDupAt(l, i, j + 1); }
  }

  lemma FrontGone(v: seq<Desc>, l: seq<ListNode>, cache: map<Key, ListNode>)
    requires Agree(v, l, cache) && v != []
    ensures Agree(v[1..], l[1..], cache - {v[0].key})
  {
    TailWf(v);
    forall i | 0 <= i < |v[1..]| ensures v[1..][i].key in cache - {v[0].key} && cache[v[1..][i].key] == l[1..][i] {
      assert KeysOf(v[1..])[i] == v[i + 1].key;
    }
  }

  lemma Appended(v: seq<Desc>, l: seq<ListNode>, cache: map<Key, ListNode>, d: Desc, node: ListNode)
    requires Agree(v, l, cache) && d.key !in cache && Wf(v + [d])
    ensures Agree(v + [d], l + [node], cache[d.key := node])
  {
    assert KeysOf(v + [d]) == KeysOf(v) + [d.key];
  }

  lemma StillAbsent(v: seq<Desc>, l: seq<ListNode>, cache: map<Key, ListNode>, w: seq<Desc>, m: seq<ListNode>,
                    left: map<Key, ListNode>, cap: nat, k: Key)
    requires Agree(v, l, cache) && Agree(w, m, left) && k !in cache && w == EvictSpec(v, cap) && |v| <= Room(cap)
    ensures k !in left && |w| < Room(cap)
  {
    Absent(v, l, cache, k);
    EvictDropsOldest(v, cap);
    if v != [] { TailWf(v); }
  }

  lemma Removed(v: seq<Desc>, l: seq<ListNode>, cache: map<Key, ListNode>, k: Key) returns (i: nat)
    requires Agree(v, l, cache) && k in cache && forall i :: 0 <= i < |l| ==> l[i].desc == v[i]
    ensures Agree(Drop(v, k), Without(l, cache[k]), cache - {k})
    ensures i < |v| && Drop(v, k) == v[..i] + v[i + 1..] && Without(l, cache[k]) == l[..i] + l[i + 1..]
  {
    i := NodePlace(v, l, cache, k);
    DropKeys(v, k);
    WithoutNoDup(KeysOf(v), k);
    RemovedAt(v, l, cache, i, Drop(v, k), Without(l, cache[k]));
  }

  lemma RemovedAt(v: seq<Desc>, l: seq<ListNode>, cache: map<Key, ListNode>, i: nat, w: seq<Desc>, m: seq<ListNode>)
    requires Agree(v, l, cache) && i < |v| && w == v[..i] + v[i + 1..] && m == l[..i] + l[i + 1..]
    requires Wf(w) && forall k :: k in KeysOf(w) <==> k in KeysOf(v) && k != v[i].key
    ensures Agree(w, m, cache - {v[i].key})
  {
    forall j | 0 <= j < |w| ensures w[j].key in cache - {v[i].key} && cache[w[j].key] == m[j] {
      assert w[j] == v[if j < i then j else j + 1];
      assert KeysOf(w)[j] in KeysOf(w);
    }
  }

  /** Moving an entry to the back keeps every other node where the map points. */
  lemma MapFollows(v: seq<Desc>, l: seq<ListNode>, cache: map<Key, ListNode>, i: nat, w: seq<Desc>, m: seq<ListNode>)
    requires |l| == |v| && i < |v|
    requires forall j :: 0 <= j < |v| ==> v[j].key in cache && cache[v[j].key] == l[j]
    requires forall k :: k in cache ==> k in KeysOf(v)
    requires |w| == |v| && w[..|w| - 1] == v[..i] + v[i + 1..] && w[|w| - 1].key == v[i].key
    requires m == l[..i] + l[i + 1..] + [l[i]]
    ensures forall j :: 0 <= j < |w| ==> w[j].key in cache && cache[w[j].key] == m[j]
    ensures forall k :: k in cache ==> k in KeysOf(w)
  {
    forall j | 0 <= j < |w| ensures w[j].key in cache && cache[w[j].key] == m[j] {
      if j < |w| - 1 { assert w[j] == w[..|w| - 1][j] == v[if j < i then j else j + 1]; }
    }
    forall k | k in cache ensures k in KeysOf(w) {
      var j :| 0 <= j < |v| && KeysOf(v)[j] == k;
      var at := if j < i then j else if j == i then |w| - 1 else j - 1;
      if at < |w| - 1 { assert w[at] == w[..|w| - 1][at] == v[j]; }
      assert KeysOf(w)[at] == k;
    }
  }

  /** Lookups move entries and touch them; they find the same keys. */
  lemma {:induction false} LookupAllFinds(l: seq<Desc>, keys: seq<Key>, now: nat, k: Key)
    requires Wf(l)
    ensures
      var m := LookupAll(l, keys, now);
      && Wf(m) && (Find(m, k).Some? <==> Find(l, k).Some?)
      && (Find(l, k).Some? ==> Find(m, k).value.(accessTime := now) == Find(l, k).value.(accessTime := now))
    decreases |keys|
  {
    if keys != [] {
      var j, m := keys[|keys| - 1], LookupAll(l, keys[..|keys| - 1], now);
      LookupAllFinds(l, keys[..|keys| - 1], now, k);
      FindAt(m, j);
      if Find(m, j).Some? {
        MovedBack(m, Find(m, j).value.(accessTime := now));
        FindMoved(m, j, Find(m, j).value.(accessTime := now), k);
      }
    }
  }

  lemma FindMoved(l: seq<Desc>, j: Key, x: Desc, k: Key)
    requires Wf(l) && x.key == j && Find(l, j).Some?
    ensures Find(Drop(l, j) + [x], k) == if k == j then Some(x) else Find(l, k)
  {
    var m := Drop(l, j) + [x];
    MovedBack(l, x);
    WithoutNoDup(KeysOf(l), j);
    FindAt(l, k);
    FindAt(l, j);
    FindAt(m, k);
    if k == j {
      DropAt(m, |m| - 1);
    } else if Find(l, k).Some? {
      var i :| 0 <= i < |l| && l[i] == Find(l, k).value;
      var p :| 0 <= p < |l| && KeysOf(l)[p] == j;
      DropAt(l, p);
      DropAt(m, if i < p then i else i - 1);
    }
  }
}

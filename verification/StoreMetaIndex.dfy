/** The store's index (src/store/store_meta_index.cpp): a hash map of key records and, through
    the committed ones, an intrusive doubly linked recency list around a sentinel. */
module MetaIndex {
  import opened Base

  /** A key record without its list pointers; `stat` is 1 once committed. */
  datatype Record = Record(key: Key, offset: nat, size: nat, allocSize: nat, stat: int, accessTime: nat)

  /** The index as a value: the records, and the committed keys with the most recent first. */
  datatype IndexState = IndexState(recs: map<Key, Record>, lru: seq<Key>)

  const EMPTY_INDEX := IndexState(map[], [])

  predicate Committed(s: IndexState, k: Key) {
    k in s.recs && s.recs[k].stat == 1
  }

  ghost predicate Wf(s: IndexState) {
    && NoDup(s.lru)
    && (forall k :: k in s.lru <==> Committed(s, k))
    && (forall k :: k in s.recs ==> s.recs[k].key == k)
  }

  // ---------- specification ----------

  function ToFront(lru: seq<Key>, k: Key): seq<Key> {
    [k] + Without(lru, k)
  }

  function PutSpec(s: IndexState, k: Key, r: Record): IndexState {
    IndexState(s.recs[k := r], if r.stat == 1 then ToFront(s.lru, k) else Without(s.lru, k))
  }

  function TouchSpec(s: IndexState, k: Key, now: nat): IndexState {
    if Committed(s, k) then IndexState(s.recs[k := s.recs[k].(accessTime := now)], ToFront(s.lru, k)) else s
  }

  function GetSpec(s: IndexState, k: Key, now: nat): Option<Record> {
    if Committed(s, k) then Some(s.recs[k].(accessTime := now)) else None
  }

  function CommitSpec(s: IndexState, k: Key, now: nat): IndexState {
    if k in s.recs && s.recs[k].stat != 1
    then IndexState(s.recs[k := s.recs[k].(stat := 1, accessTime := now)], ToFront(s.lru, k))
    else s
  }

  function RemoveSpec(s: IndexState, k: Key): IndexState {
    IndexState(s.recs - {k}, Without(s.lru, k))
  }

  function TouchAll(s: IndexState, keys: seq<Key>, now: nat): IndexState
    decreases |keys|
  {
    if keys == [] then s else TouchSpec(TouchAll(s, keys[..|keys| - 1], now), keys[|keys| - 1], now)
  }

  function HitsOf(s: IndexState, keys: seq<Key>, now: nat): seq<Record>
    decreases |keys|
  {
    if keys == [] then []
    else
      var k := keys[|keys| - 1];
      HitsOf(s, keys[..|keys| - 1], now) + if Committed(s, k) then [s.recs[k].(accessTime := now)] else []
  }

  function MissesOf(s: IndexState, keys: seq<Key>): seq<Key>
    decreases |keys|
  {
    if keys == [] then []
    else
      var k := keys[|keys| - 1];
      MissesOf(s, keys[..|keys| - 1]) + if Committed(s, k) then [] else [k]
  }

  lemma {:induction false} TouchAllRecords(s: IndexState, keys: seq<Key>, now: nat)
    ensures TouchAll(s, keys, now).recs.Keys == s.recs.Keys
    ensures forall k :: k in s.recs ==>
              TouchAll(s, keys, now).recs[k].(accessTime := 0) == s.recs[k].(accessTime := 0)
    ensures Wf(s) ==> Wf(TouchAll(s, keys, now))
    decreases |keys|
  {
    if keys != [] {
      TouchAllRecords(s, keys[..|keys| - 1], now);
      if Wf(s) { TouchKeepsWf(TouchAll(s, keys[..|keys| - 1], now), keys[|keys| - 1], now); }
    }
  }

  /** What probing `keys` one by one leaves of `s0`, and what it finds. */
  ghost predicate Probed(s0: IndexState, keys: seq<Key>, now: nat, s: IndexState, hits: seq<Record>, misses: seq<Key>) {
    s == TouchAll(s0, keys, now) && hits == HitsOf(s0, keys, now) && misses == MissesOf(s0, keys)
  }

  lemma ProbeOne(s0: IndexState, keys: seq<Key>, i: nat, now: nat, s: IndexState, hits: seq<Record>, misses: seq<Key>)
    requires i < |keys| && Probed(s0, keys[..i], now, s, hits, misses)
    ensures
      var k, t := keys[i], TouchSpec(s, keys[i], now);
      if Committed(s, k) then Probed(s0, keys[..i + 1], now, t, hits + [t.recs[k]], misses)
      else Probed(s0, keys[..i + 1], now, s, hits, misses + [k])
  {
    TouchAllRecords(s0, keys[..i], now);
    assert keys[..i + 1][..i] == keys[..i];
  }

  /** The `n` coldest records, coldest first. */
  ghost function Coldest(s: IndexState, n: nat): seq<Record>
    requires Wf(s) && n <= |s.lru|
  {
    seq(n, i requires 0 <= i < n => assert s.lru[|s.lru| - 1 - i] in s.lru; s.recs[s.lru[|s.lru| - 1 - i]])
  }

  /** How many records of `cold` are taken, and their 32-bit total, when records are taken
      until `needed` bytes or `cap` records are reached. */
  function TakeBySize(cold: seq<Record>, needed: nat, cap: nat, total: nat): (nat, nat)
    decreases |cold|
  {
    if cold == [] || cap == 0 || total >= needed then (0, total)
    else
      var (n, t) := TakeBySize(cold[1..], needed, cap - 1, (total + cold[0].allocSize) % U32);
      (n + 1, t)
  }

  // ---------- every operation keeps the index well formed ----------

  lemma PutKeepsWf(s: IndexState, k: Key, r: Record)
    requires Wf(s) && r.key == k
    ensures Wf(PutSpec(s, k, r))
  {
    WithoutNoDup(s.lru, k);
  }

  lemma TouchKeepsWf(s: IndexState, k: Key, now: nat)
    requires Wf(s)
    ensures Wf(TouchSpec(s, k, now))
  {
    WithoutNoDup(s.lru, k);
  }

  lemma CommitKeepsWf(s: IndexState, k: Key, now: nat)
    requires Wf(s)
    ensures Wf(CommitSpec(s, k, now))
  {
    WithoutNoDup(s.lru, k);
  }

  lemma RemoveKeepsWf(s: IndexState, k: Key)
    requires Wf(s)
    ensures Wf(RemoveSpec(s, k))
  {
    WithoutNoDup(s.lru, k);
  }

  /** A commit makes an uncommitted record visible, stamped with its time and at the front; of a committed one,
      also when it comes a second time, it changes nothing. */
  lemma CommitOnce(s: IndexState, k: Key, now: nat, later: nat)
    requires Wf(s)
    ensures
      var t := CommitSpec(s, k, now);
      && (k in s.recs && s.recs[k].stat != 1 ==>
            k in t.recs && Committed(t, k) && t.recs[k].accessTime == now && t.recs[k].offset == s.recs[k].offset
            && t.lru == [k] + s.lru)
      && (k !in s.recs || s.recs[k].stat == 1 ==> t == s)
      && CommitSpec(t, k, later) == t
  {
    if k in s.recs && s.recs[k].stat != 1 { WithoutAbsent(s.lru, k); }
  }

  // ---------- the list order is recency ----------

  datatype IndexOp =
    | Put(key: Key, rec: Record)
    | Get(key: Key, now: nat)
    | Commit(key: Key, now: nat)
    | Remove(key: Key)

  function Apply(s: IndexState, op: IndexOp): IndexState {
    match op
    case Put(k, r) => PutSpec(s, k, r.(key := k))
    case Get(k, now) => TouchSpec(s, k, now)
    case Commit(k, now) => CommitSpec(s, k, now)
    case Remove(k) => RemoveSpec(s, k)
  }

  function RunIndex(ops: seq<IndexOp>): IndexState
    decreases |ops|
  {
    if ops == [] then EMPTY_INDEX else Apply(RunIndex(ops[..|ops| - 1]), ops[|ops| - 1])
  }

  /** Does this operation count as a use of `k`: a committed put, a hit, or the commit itself? */
  predicate Uses(s: IndexState, op: IndexOp, k: Key) {
    op.key == k &&
    match op
    case Put(_, r) => r.stat == 1
    case Get(_, _) => Committed(s, k)
    case Commit(_, _) => k in s.recs && s.recs[k].stat != 1
    case Remove(_) => false
  }

  /** The number of the last operation that used `k`, counting from 1; 0 when none did. */
  function LastUse(ops: seq<IndexOp>, k: Key): nat
    decreases |ops|
  {
    if ops == [] then 0
    else
      var before := ops[..|ops| - 1];
      if Uses(RunIndex(before), ops[|ops| - 1], k) then |ops| else LastUse(before, k)
  }

  ghost predicate ByRecency(lru: seq<Key>, ops: seq<IndexOp>) {
    forall i, j :: 0 <= i < j < |lru| ==> LastUse(ops, lru[j]) < LastUse(ops, lru[i])
  }

  lemma {:induction false} LastUseBound(ops: seq<IndexOp>, k: Key)
    ensures LastUse(ops, k) <= |ops|
  {
    if ops != [] { LastUseBound(ops[..|ops| - 1], k); }
  }

  /** Taking one key out keeps the rest in order of recency, whatever the last operation was,
      as long as it used none of them. */
  lemma RecencyWithout(lru: seq<Key>, ops: seq<IndexOp>, k: Key)
    requires ops != [] && NoDup(lru) && ByRecency(lru, ops[..|ops| - 1]) && ops[|ops| - 1].key == k
    ensures ByRecency(Without(lru, k), ops)
  {
    var w, before := Without(lru, k), ops[..|ops| - 1];
    WithoutNoDup(lru, k);
    forall i, j | 0 <= i < j < |w| ensures LastUse(ops, w[j]) < LastUse(ops, w[i]) {
      var (i', j') := WithoutIndices(lru, k, i, j);
      assert w[i] in w && w[j] in w;
      assert LastUse(ops, w[i]) == LastUse(before, w[i]) && LastUse(ops, w[j]) == LastUse(before, w[j]);
    }
  }

  ghost function WithoutIndices(s: seq<Key>, x: Key, i: nat, j: nat): (r: (nat, nat))
    requires NoDup(s) && i < j < |Without(s, x)|
    ensures r.0 < r.1 < |s| && s[r.0] == Without(s, x)[i] && s[r.1] == Without(s, x)[j]
  {
    WithoutNoDup(s, x);
    if x in s then
      var p :| 0 <= p < |s| && s[p] == x;
      WithoutAt(s, p);
      (if i < p then i else i + 1, if j < p then j else j + 1)
    else
      WithoutAbsent(s, x);
      (i, j)
  }

  /** The key an operation uses goes in front of the others. */
  lemma UsedGoesFirst(rest: seq<Key>, ops: seq<IndexOp>, k: Key)
    requires ops != [] && ops[|ops| - 1].key == k && k !in rest && ByRecency(rest, ops)
    requires Uses(RunIndex(ops[..|ops| - 1]), ops[|ops| - 1], k)
    ensures ByRecency([k] + rest, ops)
  {
    var l := [k] + rest;
    forall i, j | 0 <= i < j < |l| ensures LastUse(ops, l[j]) < LastUse(ops, l[i]) {
      if i == 0 {
        assert l[j] == rest[j - 1] && rest[j - 1] in rest;
        LastUseBound(ops[..|ops| - 1], l[j]);
      } else {
        assert l[i] == rest[i - 1] && l[j] == rest[j - 1];
      }
    }
  }

  /** An operation that uses no key leaves the order as it was. */
  lemma StillByRecency(lru: seq<Key>, ops: seq<IndexOp>)
    requires ops != [] && ByRecency(lru, ops[..|ops| - 1])
    requires !Uses(RunIndex(ops[..|ops| - 1]), ops[|ops| - 1], ops[|ops| - 1].key)
    ensures ByRecency(lru, ops)
  {
    forall i, j | 0 <= i < j < |lru| ensures LastUse(ops, lru[j]) < LastUse(ops, lru[i]) {
      assert LastUse(ops, lru[i]) == LastUse(ops[..|ops| - 1], lru[i]);
      assert LastUse(ops, lru[j]) == LastUse(ops[..|ops| - 1], lru[j]);
    }
  }

  lemma ApplyKeepsWf(s: IndexState, op: IndexOp)
    requires Wf(s)
    ensures Wf(Apply(s, op))
  {
    match op
    case Put(k, r) => PutKeepsWf(s, k, r.(key := k));
    case Get(k, now) => TouchKeepsWf(s, k, now);
    case Commit(k, now) => CommitKeepsWf(s, k, now);
    case Remove(k) => RemoveKeepsWf(s, k);
  }

  lemma ApplyByRecency(s: IndexState, ops: seq<IndexOp>)
    requires ops != [] && s == RunIndex(ops[..|ops| - 1]) && Wf(s) && ByRecency(s.lru, ops[..|ops| - 1])
    ensures ByRecency(Apply(s, ops[|ops| - 1]).lru, ops)
  {
    var op := ops[|ops| - 1];
    RecencyWithout(s.lru, ops, op.key);
    WithoutNoDup(s.lru, op.key);
    if Uses(s, op, op.key) {
      UsedGoesFirst(Without(s.lru, op.key), ops, op.key);
    } else {
      StillByRecency(s.lru, ops);
    }
  }

  /** Over every run the list is well formed and ordered by last use, most recent first. */
  lemma {:induction false} ListIsRecency(ops: seq<IndexOp>)
    ensures Wf(RunIndex(ops)) && ByRecency(RunIndex(ops).lru, ops)
    decreases |ops|
  {
    if ops != [] {
      var s := RunIndex(ops[..|ops| - 1]);
      ListIsRecency(ops[..|ops| - 1]);
      ApplyKeepsWf(s, ops[|ops| - 1]);
      ApplyByRecency(s, ops);
    }
  }

  // ---------- the index itself ----------

  /** A key record with its list pointers. */
  class Node {
    var rec: Record
    var prev: Node?
    var next: Node?

    constructor (r: Record)
      ensures rec == r && prev == null && next == null
    {
      rec, prev, next := r, null, null;
    }
  }

  /** `ring` runs once round the list from the sentinel back to the sentinel. */
  ghost predicate Linked(ring: seq<Node>)
    reads ring`prev, ring`next
  {
    && |ring| >= 2 && ring[0] == ring[|ring| - 1]
    && (forall i, j :: 0 <= i && j == i + 1 < |ring| ==> ring[i].next == ring[j] && ring[j].prev == ring[i])
    && (forall i, j :: 0 < i < j < |ring| ==> ring[i] != ring[j])
  }

  ghost predicate AllIn(ring: seq<Node>, nodes: set<Node>) {
    forall i :: 0 <= i < |ring| ==> ring[i] in nodes
  }

  lemma AllInWithout(ring: seq<Node>, nodes: set<Node>, i: nat)
    requires AllIn(ring, nodes) && i < |ring|
    ensures AllIn(ring[..i] + ring[i + 1..], nodes)
  {
    var r := ring[..i] + ring[i + 1..];
    forall j | 0 <= j < |r| ensures r[j] in nodes {
      assert r[j] == ring[if j < i then j else j + 1];
    }
  }

  ghost predicate Aligned(index: map<Key, Node>, lru: seq<Key>, ring: seq<Node>) {
    && |ring| == |lru| + 2
    && (forall i :: 0 <= i < |lru| ==> lru[i] in index && index[lru[i]] == ring[i + 1])
  }

  lemma AlignedWithout(index: map<Key, Node>, lru: seq<Key>, ring: seq<Node>, i: nat)
    requires Aligned(index, lru, ring) && NoDup(lru) && i < |lru|
    ensures Aligned(index, Without(lru, lru[i]), ring[..i + 1] + ring[i + 2..])
  {
    WithoutAt(lru, i);
    var l, r := lru[..i] + lru[i + 1..], ring[..i + 1] + ring[i + 2..];
    forall j | 0 <= j < |l| ensures l[j] in index && index[l[j]] == r[j + 1] {
      var at := if j < i then j else j + 1;
      assert l[j] == lru[at] && r[j + 1] == ring[at + 1];
    }
  }

  class StoreMetaIndex {
    var index: map<Key, Node>
    const sentinel: Node
    var committedCount: nat

    ghost var ring: seq<Node>
    ghost var nodes: set<Node>
    ghost var recs: map<Key, Record>
    ghost var lru: seq<Key>

    ghost function View(): IndexState
      reads `recs, `lru
    {
      IndexState(recs, lru)
    }

    /** The map's nodes carry the records. */
    ghost predicate Stored()
      reads `index, `nodes, `recs, nodes`rec
    {
      && (forall k :: k in index <==> k in recs)
      && (forall k :: k in index ==> index[k] in nodes && index[k].rec == recs[k] && recs[k].key == k)
    }

    /** The ring visits the nodes of the listed keys in order. */
    ghost predicate Ringed()
      reads `index, `nodes, `lru, `ring, nodes`prev, nodes`next
    {
      && NoDup(lru)
      && AllIn(ring, nodes)
      && Linked(ring) && ring[0] == sentinel
      && Aligned(index, lru, ring)
      && (forall k :: k in index ==> index[k] != sentinel)
    }

    ghost predicate Valid()
      reads this, nodes
    {
      Stored() && Ringed() && Wf(View()) && committedCount == |lru|
    }

    constructor ()
      ensures Valid() && View() == EMPTY_INDEX && fresh(nodes)
    {
      var s := new Node(Record("", 0, 0, 0, 0, 0));
      sentinel := s;
      index, committedCount := map[], 0;
      ring, nodes, recs, lru := [s, s], {s}, map[], [];
      new;
      sentinel.prev := sentinel;
      sentinel.next := sentinel;
    }

    method LruRemove(rec: Node, ghost i: nat)
      requires Linked(ring) && 0 < i < |ring| - 1 && ring[i] == rec
      requires rec.prev == ring[i - 1] && rec.next == ring[i + 1]
      modifies `ring, rec`prev, rec`next, rec.prev`next, rec.next`prev
      ensures Linked(ring) && ring == old(ring[..i] + ring[i + 1..]) && rec.prev == null == rec.next
    {
      rec.prev.next := rec.next;
      rec.next.prev := rec.prev;
      rec.prev := null;
      rec.next := null;
      ring := ring[..i] + ring[i + 1..];
    }

    method LruPushFront(rec: Node)
      requires Linked(ring) && ring[0] == sentinel && rec !in ring && sentinel.next == ring[1]
      modifies `ring, rec`prev, rec`next, sentinel`next, sentinel.next`prev
      ensures Linked(ring) && ring == [sentinel, rec] + old(ring[1..])
    {
      rec.next := sentinel.next;
      rec.prev := sentinel;
      sentinel.next.prev := rec;
      sentinel.next := rec;
      ring := [sentinel, rec] + ring[1..];
    }

    /** `LruRemove` seen through the index. */
    method Unlink(k: Key, node: Node)
      requires Stored() && Ringed() && k in lru && node == index[k]
      modifies `ring, `lru, nodes`prev, nodes`next
      ensures Ringed() && lru == Without(old(lru), k)
    {
      ghost var i := PlaceOf(k, node);
      ghost var rest, left := Without(lru, k), ring[..i + 1] + ring[i + 2..];
      LruRemove(node, i + 1);
      assert ring == left;
      lru := rest;
    }

    /** Where a listed key's node is, and what the list is without it. */
    lemma PlaceOf(k: Key, node: Node) returns (i: nat)
      requires Stored() && Ringed() && k in lru && node == index[k]
      ensures i < |lru| && ring[i + 1] == node && node.prev == ring[i] && node.next == ring[i + 2]
      ensures node.prev in nodes && node.next in nodes && node in nodes
      ensures Aligned(index, Without(lru, k), ring[..i + 1] + ring[i + 2..]) && NoDup(Without(lru, k))
      ensures AllIn(ring[..i + 1] + ring[i + 2..], nodes) && (ring[..i + 1] + ring[i + 2..])[0] == ring[0]
    {
      i :| i < |lru| && lru[i] == k;
      WithoutNoDup(lru, k);
      assert ring[i].next == ring[i + 1] && ring[i + 1].next == ring[i + 2];
      AlignedWithout(index, lru, ring, i);
      AllInWithout(ring, nodes, i + 1);
    }

    /** `LruPushFront` seen through the index. */
    method LinkFront(k: Key, node: Node)
      requires Stored() && Ringed() && k !in lru && k in index && node == index[k]
      modifies `ring, `lru, nodes`prev, nodes`next
      ensures Ringed() && lru == [k] + old(lru)
    {
      assert ring[0].next == ring[1];
      forall j | 0 <= j < |ring| ensures ring[j] != node {
        if 0 < j < |ring| - 1 { assert index[lru[j - 1]] == ring[j]; }
      }
      LruPushFront(node);
      lru := [k] + lru;
    }

    /** Copies every field but the list pointers into a node. */
    method Overwrite(k: Key, node: Node, record: Record)
      requires Stored() && k in index && node == index[k] && record.key == k
      modifies `recs, node`rec
      ensures Stored() && recs == old(recs)[k := record]
    {
      node.rec := record;
      recs := recs[k := record];
    }

    method Add(k: Key, record: Record) returns (node: Node)
      requires Stored() && Ringed() && k !in index && record.key == k
      modifies `index, `nodes, `recs
      ensures Stored() && Ringed() && fresh(node) && nodes == old(nodes) + {node}
      ensures index == old(index)[k := node] && recs == old(recs)[k := record] && node.rec == record
    {
      node := new Node(record);
      nodes := nodes + {node};
      index := index[k := node];
      recs := recs[k := record];
    }

    method Put(k: Key, record: Record)
      requires Valid() && record.key == k
      modifies this, nodes
      ensures Valid() && fresh(nodes - old(nodes))
      ensures View() == PutSpec(old(View()), k, record)
    {
      if k in index {
        Update(k, index[k], record);
      } else {
        Insert(k, record);
      }
    }

    /** The branch that takes a committed record off the list. */
    method Detach(k: Key, node: Node)
      requires Valid() && k in index && index[k] == node
      modifies `ring, `lru, `committedCount, nodes`prev, nodes`next
      ensures Stored() && Ringed() && lru == Without(old(lru), k) && k !in lru && committedCount == |lru|
    {
      WithoutNoDup(lru, k);
      if node.rec.stat == 1 {
        Unlink(k, node);
        committedCount := committedCount - 1;
      } else {
        WithoutAbsent(lru, k);
      }
    }

    /** The branch that puts a committed record on the list. */
    method Attach(k: Key, node: Node)
      requires Stored() && Ringed() && k !in lru && k in index && node == index[k] && committedCount == |lru|
      modifies `ring, `lru, `committedCount, nodes`prev, nodes`next
      ensures Stored() && Ringed() && committedCount == |lru|
      ensures lru == if node.rec.stat == 1 then [k] + old(lru) else old(lru)
    {
      if node.rec.stat == 1 {
        LinkFront(k, node);
        committedCount := committedCount + 1;
      }
    }

    method Update(k: Key, node: Node, record: Record)
      requires Valid() && record.key == k && k in index && index[k] == node
      modifies this, nodes
      ensures Valid() && nodes == old(nodes)
      ensures View() == PutSpec(old(View()), k, record)
    {
      PutKeepsWf(View(), k, record);
      Detach(k, node);
      Overwrite(k, node, record);
      Attach(k, node);
    }

    method Insert(k: Key, record: Record)
      requires Valid() && record.key == k && k !in index
      modifies this, nodes
      ensures Valid() && fresh(nodes - old(nodes))
      ensures View() == PutSpec(old(View()), k, record)
    {
      PutKeepsWf(View(), k, record);
      WithoutAbsent(lru, k);
      var node := Add(k, record);
      Attach(k, node);
    }

    /** A hit moves to the front; this is `Touch`, and `Get` adds the copy of the record. */
    method Touch(k: Key, now: nat)
      requires Valid()
      modifies this, nodes
      ensures Valid() && nodes == old(nodes)
      ensures View() == TouchSpec(old(View()), k, now)
    {
      TouchKeepsWf(View(), k, now);
      if k in index && index[k].rec.stat == 1 {
        MoveToFront(k, index[k]);
        Overwrite(k, index[k], index[k].rec.(accessTime := now));
      }
    }

    method MoveToFront(k: Key, node: Node)
      requires Stored() && Ringed() && k in lru && node == index[k]
      modifies `ring, `lru, nodes`prev, nodes`next
      ensures Ringed() && lru == ToFront(old(lru), k) && |lru| == |old(lru)|
    {
      WithoutNoDup(lru, k);
      Unlink(k, node);
      LinkFront(k, node);
    }

    method Get(k: Key, now: nat) returns (r: Option<Record>)
      requires Valid()
      modifies this, nodes
      ensures Valid() && nodes == old(nodes)
      ensures View() == TouchSpec(old(View()), k, now)
      ensures r == GetSpec(old(View()), k, now)
    {
      if k !in index || index[k].rec.stat != 1 {
        return None;
      }
      Touch(k, now);
      return Some(index[k].rec);
    }

    /** Hits in order with their fresh access time, misses in order; every hit is touched. */
    method BatchContains(keys: seq<Key>, now: nat) returns (hits: seq<Record>, misses: seq<Key>)
      requires Valid()
      modifies this, nodes
      ensures Valid() && nodes == old(nodes)
      ensures View() == TouchAll(old(View()), keys, now)
      ensures hits == HitsOf(old(View()), keys, now) && misses == MissesOf(old(View()), keys)
    {
      hits, misses := [], [];
      ghost var start := View();
      for i := 0 to |keys|
        invariant Valid() && nodes == old(nodes)
        invariant Probed(start, keys[..i], now, View(), hits, misses)
      {
        ProbeOne(start, keys, i, now, View(), hits, misses);
        var k := keys[i];
        if k in index && index[k].rec.stat == 1 {
          Touch(k, now);
          hits := hits + [index[k].rec];
        } else {
          misses := misses + [k];
        }
      }
      assert keys[..|keys|] == keys;
    }

    /** False only for an unknown key; a key that is committed already keeps its place. */
    method Commit(k: Key, now: nat) returns (found: bool)
      requires Valid()
      modifies this, nodes
      ensures Valid() && nodes == old(nodes)
      ensures View() == CommitSpec(old(View()), k, now) && found == (k in old(recs))
    {
      CommitKeepsWf(View(), k, now);
      if k !in index {
        return false;
      }
      var node := index[k];
      if node.rec.stat == 1 {
        return true;
      }
      WithoutAbsent(lru, k);
      Overwrite(k, node, node.rec.(stat := 1, accessTime := now));
      Attach(k, node);
      return true;
    }

    method Remove(k: Key) returns (r: Option<Record>)
      requires Valid()
      modifies this, nodes
      ensures Valid() && nodes == old(nodes)
      ensures View() == RemoveSpec(old(View()), k)
      ensures r == if k in old(recs) then Some(old(recs)[k]) else None
    {
      RemoveKeepsWf(View(), k);
      if k in index {
        r := Some(index[k].rec);
        Detach(k, index[k]);
        Forget(k);
      } else {
        WithoutAbsent(lru, k);
        assert recs - {k} == recs;
        r := None;
      }
    }

    method Forget(k: Key)
      requires Stored() && Ringed() && k !in lru && k in index
      modifies `index, `recs
      ensures Stored() && Ringed() && recs == old(recs) - {k}
    {
      index := index - {k};
      recs := recs - {k};
    }

    /** Every committed record once, in no particular order. */
    method GetAllCommittedEntries() returns (entries: seq<Record>)
      requires Valid()
      ensures forall i :: 0 <= i < |entries| ==>
                Committed(View(), entries[i].key) && entries[i] == recs[entries[i].key]
      ensures forall i, j :: 0 <= i < j < |entries| ==> entries[i].key != entries[j].key
      ensures forall k :: Committed(View(), k) ==> recs[k] in entries
    {
      entries := [];
      var rest := index.Keys;
      while rest != {}
        invariant rest <= index.Keys
        invariant forall i :: 0 <= i < |entries| ==> entries[i].key !in rest
        invariant forall i :: 0 <= i < |entries| ==>
                    Committed(View(), entries[i].key) && entries[i] == recs[entries[i].key]
        invariant forall i, j :: 0 <= i < j < |entries| ==> entries[i].key != entries[j].key
        invariant forall k :: Committed(View(), k) && k !in rest ==> recs[k] in entries
        decreases rest
      {
        var k :| k in rest;
        rest := rest - {k};
        if index[k].rec.stat == 1 {
          entries := entries + [index[k].rec];
        }
      }
    }

    /** Walks from the cold end. */
    method GetLRUCandidates(maxCount: nat) returns (result: seq<Record>)
      requires Valid()
      ensures result == Coldest(View(), Min(maxCount, |lru|))
    {
      result := [];
      var cur := sentinel.prev;
      assert ring[|ring| - 1].prev == ring[|ring| - 2];
      while cur != sentinel && |result| < maxCount
        invariant |result| <= |lru| && |result| <= maxCount
        invariant cur == ring[|lru| - |result|]
        invariant result == Coldest(View(), |result|)
        decreases |lru| - |result|
      {
        ColdNode(|lru| - |result|);
        result := result + [cur.rec];
        cur := cur.prev;
      }
      ColdNode(|lru| - |result|);
    }

    method GetLRUCandidatesBySize(neededBytes: nat, maxCount: nat) returns (result: seq<Record>, total: nat)
      requires Valid()
      ensures |result| <= |lru| && result == Coldest(View(), |result|)
      ensures (|result|, total) == TakeBySize(Coldest(View(), |lru|), neededBytes, maxCount, 0)
    {
      result, total := [], 0;
      var cur := sentinel.prev;
      ghost var cold := Coldest(View(), |lru|);
      assert ring[|ring| - 1].prev == ring[|ring| - 2];
      assert cold[0..] == cold && cold[..0] == [];
      while cur != sentinel && |result| < maxCount && total < neededBytes
        invariant |result| <= |lru| && cur == ring[|lru| - |result|]
        invariant TakesOn(cold, neededBytes, maxCount, result, total)
        decreases |lru| - |result|
      {
        NextColdest(|result|, cur);
        var sum := (total + cur.rec.allocSize) % U32;
        TakeOneMore(cold, neededBytes, maxCount, result, total, cur.rec, sum);
        result, total, cur := result + [cur.rec], sum, cur.prev;
      }
      NextColdest(|result|, cur);
      TakesEnd(cold, neededBytes, maxCount, result, total);
    }

    /** Walking from the cold end, the node reached after `n` steps. */
    lemma NextColdest(n: nat, cur: Node)
      requires Valid() && n <= |lru| && cur == ring[|lru| - n]
      ensures cur == sentinel <==> n == |lru|
      ensures Coldest(View(), |lru|)[..n] == Coldest(View(), n)
      ensures n < |lru| ==> cur.rec == Coldest(View(), |lru|)[n] && cur.prev == ring[|lru| - n - 1]
    {
      ColdNode(|lru| - n);
      if n < |lru| { assert lru[|lru| - n - 1] in lru; }
    }

    lemma ColdNode(at: nat)
      requires Valid() && at <= |lru|
      ensures ring[at] == sentinel <==> at == 0
      ensures at > 0 ==> lru[at - 1] in recs && ring[at].rec == recs[lru[at - 1]] && ring[at].prev == ring[at - 1]
    {
    }
  }

  /** Having taken `taken`, the front of `cold`, with running total `total`, the rest decides. */
  ghost predicate TakesOn(cold: seq<Record>, needed: nat, cap: nat, taken: seq<Record>, total: nat) {
    var n := |taken|;
    n <= |cold| && n <= cap && taken == cold[..n] &&
    var (m, t) := TakeBySize(cold[n..], needed, cap - n, total);
    TakeBySize(cold, needed, cap, 0) == (n + m, t)
  }

  lemma TakeOneMore(cold: seq<Record>, needed: nat, cap: nat, taken: seq<Record>, total: nat, r: Record, sum: nat)
    requires TakesOn(cold, needed, cap, taken, total) && |taken| < |cold| && |taken| < cap && total < needed
    requires r == cold[|taken|] && sum == (total + r.allocSize) % U32
    ensures TakesOn(cold, needed, cap, taken + [r], sum)
  {
    assert cold[|taken|..][1..] == cold[|taken| + 1..];
  }

  lemma TakesEnd(cold: seq<Record>, needed: nat, cap: nat, taken: seq<Record>, total: nat)
    requires TakesOn(cold, needed, cap, taken, total) && (|taken| == |cold| || |taken| == cap || total >= needed)
    ensures TakeBySize(cold, needed, cap, 0) == (|taken|, total) && taken == cold[..|taken|]
  {
  }
}

/** What the begin-timestamp index of src/rbtree_ins.c stands for: the linked entries, stably sorted. */
module RbOrder {
  import opened Distinct
  import opened RbTree

  /** A linked unit and its key. */
  datatype Entry = Entry(node: Node, key: int)

  predicate Sorted(v: seq<Entry>) { forall i, j :: 0 <= i < j < |v| ==> v[i].key <= v[j].key }
  predicate Strict(v: seq<Entry>) { forall i, j :: 0 <= i < j < |v| ==> v[i].key < v[j].key }
  /** No node is in two entries. */
  ghost predicate OwnNodes(v: seq<Entry>): (r: bool)
    ensures r <==> forall i, j :: 0 <= i < j < |v| ==> v[i].node != v[j].node
  {
    var s := seq(|v|, i requires 0 <= i < |v| => v[i].node);
    assert forall i :: 0 <= i < |v| ==> s[i] == v[i].node;
    Apart(s)
  }

  function Nodes(v: seq<Entry>): set<Node> { set i | 0 <= i < |v| :: v[i].node }

  /** Where a new entry goes: behind all that are not greater. */
  function Place(v: seq<Entry>, key: int): (i: nat)
    ensures i <= |v| && (forall j :: 0 <= j < i ==> v[j].key <= key) && (i < |v| ==> v[i].key > key)
  {
    if v == [] || v[0].key > key then 0 else 1 + Place(v[1..], key)
  }

  function Insert(v: seq<Entry>, e: Entry): seq<Entry> { v[..Place(v, e.key)] + [e] + v[Place(v, e.key)..] }

  function Drop(v: seq<Entry>, n: Node): (r: seq<Entry>)
    ensures |r| <= |v|
  {
    if v == [] then [] else if v[0].node == n then v[1..] else [v[0]] + Drop(v[1..], n)
  }

  /** The entries of one key, in sequence. */
  function OfKey(v: seq<Entry>, k: int): seq<Entry> {
    if v == [] then [] else if v[0].key == k then [v[0]] + OfKey(v[1..], k) else OfKey(v[1..], k)
  }

  lemma PlaceIs(v: seq<Entry>, key: int, i: int)
    requires Sorted(v) && 0 <= i <= |v| && (i > 0 ==> v[i - 1].key <= key) && (i < |v| ==> v[i].key > key)
    ensures Place(v, key) == i
  {
  }

  lemma {:induction false} DropAt(v: seq<Entry>, k: int)
    requires OwnNodes(v) && 0 <= k < |v|
    ensures Drop(v, v[k].node) == v[..k] + v[k + 1..]
  {
    if k > 0 {
      assert v[1..][k - 1] == v[k];
      DropAt(v[1..], k - 1);
      assert v[..k] + v[k + 1..] == [v[0]] + (v[1..][..k - 1] + v[1..][k..]);
    }
  }

  lemma {:induction false} OfKeySum(a: seq<Entry>, b: seq<Entry>, k: int)
    ensures OfKey(a + b, k) == OfKey(a, k) + OfKey(b, k)
  {
    if a == [] {
      assert a + b == b;
    } else {
      assert (a + b)[1..] == a[1..] + b;
      OfKeySum(a[1..], b, k);
    }
  }

  lemma {:induction false} NoneOfKey(v: seq<Entry>, k: int)
    requires forall i :: 0 <= i < |v| ==> v[i].key != k
    ensures OfKey(v, k) == []
  {
    if v != [] { NoneOfKey(v[1..], k); }
  }

  lemma OfKeyOne(e: Entry, k: int)
    ensures OfKey([e], k) == if e.key == k then [e] else []
  {
    assert OfKey([e][1..], k) == [];
  }

  lemma InsertSorted(v: seq<Entry>, e: Entry)
    requires Sorted(v)
    ensures Sorted(Insert(v, e))
  {
    var i, w := Place(v, e.key), Insert(v, e);
    forall j, l | 0 <= j < l < |w| ensures w[j].key <= w[l].key {
      assert w[j] == if j < i then v[j] else if j == i then e else v[j - 1];
      assert w[l] == if l < i then v[l] else if l == i then e else v[l - 1];
    }
  }

  /** An inserted entry is the last of its key. */
  lemma OfKeyInserted(v: seq<Entry>, e: Entry, k: int)
    requires Sorted(v)
    ensures OfKey(Insert(v, e), k) == OfKey(v, k) + OfKey([e], k)
  {
    hide OfKey, Place, Sorted;
    var i := Place(v, e.key);
    var a, b := v[..i], v[i..];
    var x, y, w := OfKey(a, k), OfKey([e], k), OfKey(b, k);
    assert v == a + b && Insert(v, e) == a + ([e] + b);
    OfKeySum(a, b, k);
    OfKeySum(a, [e] + b, k);
    OfKeySum([e], b, k);
    OfKeyOne(e, k);
    BehindPlace(v, e.key);
    if e.key == k {
      forall j | 0 <= j < |b| ensures b[j].key != k { assert b[j] == v[i + j]; }
      NoneOfKey(b, k);
    } else { assert x + ([] + w) == (x + w) + []; }
  }

  lemma BehindPlace(v: seq<Entry>, key: int)
    requires Sorted(v)
    ensures forall j :: Place(v, key) <= j < |v| ==> v[j].key > key
  {
  }

  lemma {:induction false} OfKeyIn(v: seq<Entry>, k: int, e: Entry)
    ensures e in OfKey(v, k) <==> e in v && e.key == k
  {
    if v != [] { OfKeyIn(v[1..], k, e); }
  }

  lemma {:induction false} OfKeyDropped(v: seq<Entry>, n: Node, k: int)
    requires OwnNodes(v)
    ensures OfKey(Drop(v, n), k) == Drop(OfKey(v, k), n)
  {
    if v != [] && v[0].key == k { DropStep(v[0], OfKey(v[1..], k), n); }
    if v != [] && v[0].node == n {
      forall e | e in OfKey(v[1..], k) ensures e.node != n {
        OfKeyIn(v[1..], k, e);
      }
      DropAbsent(OfKey(v[1..], k), n);
    } else if v != [] {
      OfKeyDropped(v[1..], n, k);
      OfKeyStep(v[0], Drop(v[1..], n), k);
    }
  }

  lemma DropStep(e: Entry, v: seq<Entry>, n: Node)
    ensures Drop([e] + v, n) == if e.node == n then v else [e] + Drop(v, n)
  {
    assert ([e] + v)[1..] == v;
  }

  lemma OfKeyStep(e: Entry, v: seq<Entry>, k: int)
    ensures OfKey([e] + v, k) == if e.key == k then [e] + OfKey(v, k) else OfKey(v, k)
  {
    assert ([e] + v)[1..] == v;
  }

  lemma {:induction false} DropAbsent(v: seq<Entry>, n: Node)
    requires n !in Nodes(v)
    ensures Drop(v, n) == v
  {
    if v != [] {
      NodesSum([v[0]], v[1..]);
      assert v == [v[0]] + v[1..] && v[0].node in Nodes(v);
      DropAbsent(v[1..], n);
    }
  }

  // ---------------------------------------------------------------- who is in

  lemma NodesSum(a: seq<Entry>, b: seq<Entry>)
    ensures Nodes(a + b) == Nodes(a) + Nodes(b)
  {
    var w := a + b;
    forall n ensures n in Nodes(w) <==> n in Nodes(a) + Nodes(b) {
      if n in Nodes(a) {
        var i :| 0 <= i < |a| && a[i].node == n;
        assert w[i].node == n;
      }
      if n in Nodes(b) {
        var i :| 0 <= i < |b| && b[i].node == n;
        assert w[|a| + i].node == n;
      }
    }
  }

  lemma NodesInserted(v: seq<Entry>, e: Entry)
    ensures Nodes(Insert(v, e)) == Nodes(v) + {e.node} == Nodes(v + [e])
  {
    var a, b := v[..Place(v, e.key)], v[Place(v, e.key)..];
    assert v == a + b && [e][0].node in Nodes([e]);
    NodesSum(a, b);
    NodesSum(a, [e]);
    NodesSum(a + [e], b);
    NodesSum(v, [e]);
  }

  lemma OwnNodesInserted(v: seq<Entry>, e: Entry)
    requires OwnNodes(v) && e.node !in Nodes(v)
    ensures OwnNodes(Insert(v, e)) && OwnNodes(v + [e])
  {
    var i, w := Place(v, e.key), Insert(v, e);
    assert forall j {:trigger w[j]} :: 0 <= j < |w| ==> w[j] == if j < i then v[j] else if j == i then e else v[j - 1];
    assert forall j :: 0 <= j < |v| ==> v[j].node in Nodes(v);
  }

  lemma DropIs(v: seq<Entry>, n: Node) returns (k: int)
    requires OwnNodes(v) && n in Nodes(v)
    ensures 0 <= k < |v| && v[k].node == n && Drop(v, n) == v[..k] + v[k + 1..]
  {
    k :| 0 <= k < |v| && v[k].node == n;
    DropAt(v, k);
  }

  lemma NodesDropped(v: seq<Entry>, n: Node)
    requires OwnNodes(v)
    ensures Nodes(Drop(v, n)) == Nodes(v) - {n}
  {
    if n in Nodes(v) {
      var k := DropIs(v, n);
      var a, b := v[..k], v[k + 1..];
      assert v == a + [v[k]] + b && [v[k]][0].node in Nodes([v[k]]);
      NodesSum(a, b);
      NodesSum(a, [v[k]]);
      NodesSum(a + [v[k]], b);
      assert n !in Nodes(a) && n !in Nodes(b);
    } else {
      DropAbsent(v, n);
    }
  }

  lemma DroppedKeeps(v: seq<Entry>, n: Node)
    requires OwnNodes(v)
    ensures OwnNodes(Drop(v, n)) && (Sorted(v) ==> Sorted(Drop(v, n))) && (Strict(v) ==> Strict(Drop(v, n)))
  {
    hide Drop, OwnNodes, Sorted, Strict;
    if n in Nodes(v) {
      var k := DropIs(v, n);
      CutKeeps(v, v[..k] + v[k + 1..], k);
    } else {
      DropAbsent(v, n);
    }
  }

  lemma CutKeeps(v: seq<Entry>, w: seq<Entry>, k: int)
    requires 0 <= k < |v| && w == v[..k] + v[k + 1..]
    ensures (OwnNodes(v) ==> OwnNodes(w)) && (Sorted(v) ==> Sorted(w)) && (Strict(v) ==> Strict(w))
  {
    assert forall j {:trigger w[j]} :: 0 <= j < |w| ==> w[j] == v[if j < k then j else j + 1];
  }

  // ---------------------------------------------------------------- unique keys: a finite map

  predicate HasKey(v: seq<Entry>, k: int) { exists i :: 0 <= i < |v| && v[i].key == k }

  /** `m` maps the keys of `v`, and no others, to their nodes. */
  predicate MapIs(v: seq<Entry>, m: map<int, Node>) {
    && (forall i :: 0 <= i < |v| ==> v[i].key in m && m[v[i].key] == v[i].node)
    && forall k :: k in m ==> HasKey(v, k)
  }

  function AsMap(v: seq<Entry>): map<int, Node> {
    if v == [] then map[] else AsMap(v[1..])[v[0].key := v[0].node]
  }

  lemma {:induction false} AsMapIs(v: seq<Entry>)
    requires Strict(v)
    ensures MapIs(v, AsMap(v))
  {
    if v != [] {
      AsMapIs(v[1..]);
      var m := AsMap(v);
      forall i | 0 <= i < |v| ensures v[i].key in m && m[v[i].key] == v[i].node {
        if i > 0 { assert v[i] == v[1..][i - 1]; }
      }
      forall k | k in m ensures HasKey(v, k) {
        if k != v[0].key {
          var i :| 0 <= i < |v[1..]| && v[1..][i].key == k;
          assert v[i + 1].key == k;
        }
      }
    }
  }

  lemma MapIsUnique(v: seq<Entry>, m: map<int, Node>)
    requires Strict(v) && MapIs(v, m)
    ensures m == AsMap(v)
  {
    AsMapIs(v);
    forall k ensures k in m <==> k in AsMap(v) {
      if HasKey(v, k) { var i :| 0 <= i < |v| && v[i].key == k; }
    }
    forall k | k in m ensures m[k] == AsMap(v)[k] {
      var i :| 0 <= i < |v| && v[i].key == k;
    }
  }

  lemma MapHas(v: seq<Entry>, k: int)
    requires Strict(v)
    ensures k in AsMap(v) <==> HasKey(v, k)
  {
    AsMapIs(v);
  }

  predicate InsertedAt(v: seq<Entry>, w: seq<Entry>, e: Entry, i: int) {
    && 0 <= i <= |v| && |w| == |v| + 1
    && forall j {:trigger w[j]} :: 0 <= j < |w| ==> w[j] == if j < i then v[j] else if j == i then e else v[j - 1]
  }

  lemma MapIsInserted(v: seq<Entry>, w: seq<Entry>, e: Entry, i: int, m: map<int, Node>)
    requires InsertedAt(v, w, e, i) && MapIs(v, m) && !HasKey(v, e.key)
    ensures MapIs(w, m[e.key := e.node])
  {
    forall k | k in m[e.key := e.node] ensures HasKey(w, k) {
      if k == e.key {
        assert w[i].key == k;
      } else {
        var j :| 0 <= j < |v| && v[j].key == k;
        assert w[if j < i then j else j + 1].key == k;
      }
    }
  }

  lemma StrictInserted(v: seq<Entry>, w: seq<Entry>, e: Entry)
    requires Strict(v) && !HasKey(v, e.key) && InsertedAt(v, w, e, Place(v, e.key))
    ensures Strict(w)
  {
    var i := Place(v, e.key);
    BehindPlace(v, e.key);
    forall x | 0 <= x < i ensures v[x].key < e.key {
      assert v[x].key != e.key;
    }
  }

  /** Linking under a new key adds one pair to the map. */
  lemma MapInserted(v: seq<Entry>, e: Entry)
    requires Strict(v) && !HasKey(v, e.key)
    ensures Strict(Insert(v, e)) && AsMap(Insert(v, e)) == AsMap(v)[e.key := e.node]
  {
    hide Strict, AsMap, MapIs, HasKey;
    var i, w := Place(v, e.key), Insert(v, e);
    assert InsertedAt(v, w, e, i);
    AsMapIs(v);
    StrictInserted(v, w, e);
    MapIsInserted(v, w, e, i, AsMap(v));
    MapIsUnique(w, AsMap(v)[e.key := e.node]);
  }

  lemma MapIsDropped(v: seq<Entry>, w: seq<Entry>, k: int, m: map<int, Node>)
    requires Strict(v) && 0 <= k < |v| && InsertedAt(w, v, v[k], k) && MapIs(v, m)
    ensures MapIs(w, m - {v[k].key})
  {
    forall x | x in m - {v[k].key} ensures HasKey(w, x) {
      var j :| 0 <= j < |v| && v[j].key == x;
      assert w[if j < k then j else j - 1].key == x;
    }
    forall j | 0 <= j < |w| ensures w[j].key in m - {v[k].key} && (m - {v[k].key})[w[j].key] == w[j].node {
      var i := if j < k then j else j + 1;
      assert v[i] == w[j];
    }
  }

  /** Unlinking takes one pair out of the map. */
  lemma MapDropped(v: seq<Entry>, k: int)
    requires Strict(v) && OwnNodes(v) && 0 <= k < |v|
    ensures Strict(Drop(v, v[k].node)) && AsMap(Drop(v, v[k].node)) == AsMap(v) - {v[k].key}
  {
    hide Strict, AsMap, MapIs, HasKey, Drop, OwnNodes;
    var w := v[..k] + v[k + 1..];
    assert InsertedAt(w, v, v[k], k);
    DropAt(v, k);
    DroppedKeeps(v, v[k].node);
    AsMapIs(v);
    MapIsDropped(v, w, k, AsMap(v));
    MapIsUnique(w, AsMap(v) - {v[k].key});
  }
}

/** Runs of the begin-timestamp index of src/rbtree_ins.c on sequences: what is linked, and what is answered. */
module RbRuns {
  import opened RbTree
  import opened RbOrder

  // ---------------------------------------------------------------- runs

  /** What the daemon asks of the index. */
  datatype Op = Began(e: Entry) | Ended(n: Node) | Asked(now: int)

  function Next(v: seq<Entry>, op: Op): seq<Entry> {
    match op
    case Began(e) => Insert(v, e)
    case Ended(n) => Drop(v, n)
    case Asked(_) => v
  }

  /** The in-order sequence after a run. */
  function Run(ops: seq<Op>): seq<Entry> {
    if ops == [] then [] else Next(Run(ops[..|ops| - 1]), ops[|ops| - 1])
  }

  /** The entries that are linked after a run, in the order in which they were linked. */
  function Live(ops: seq<Op>): seq<Entry> {
    if ops == [] then [] else
      var was, op := Live(ops[..|ops| - 1]), ops[|ops| - 1];
      match op
      case Began(e) => was + [e]
      case Ended(n) => Drop(was, n)
      case Asked(_) => was
  }

  /** Only what is not linked is linked, only what is linked is unlinked. */
  predicate Legal(ops: seq<Op>) {
    ops == [] || (
      var was, op := Live(ops[..|ops| - 1]), ops[|ops| - 1];
      Legal(ops[..|ops| - 1]) && (op.Began? ==> op.e.node !in Nodes(was)) && (op.Ended? ==> op.n in Nodes(was)))
  }

  /** `v` is `l`, stably sorted by key. */
  ghost predicate StablySorted(v: seq<Entry>, l: seq<Entry>) {
    Sorted(v) && forall k :: OfKey(v, k) == OfKey(l, k)
  }

  /** Who is linked is who is in the sequence, once. */
  ghost predicate SameNodes(v: seq<Entry>, l: seq<Entry>) {
    OwnNodes(v) && OwnNodes(l) && Nodes(v) == Nodes(l)
  }

  lemma LinkStep(v: seq<Entry>, l: seq<Entry>, e: Entry)
    requires StablySorted(v, l) && SameNodes(v, l) && e.node !in Nodes(l)
    ensures StablySorted(Insert(v, e), l + [e]) && SameNodes(Insert(v, e), l + [e])
  {
    hide Sorted, OfKey, Insert, Nodes, OwnNodes;
    InsertSorted(v, e);
    forall k ensures OfKey(Insert(v, e), k) == OfKey(l + [e], k) {
      OfKeyInserted(v, e, k);
      OfKeySum(l, [e], k);
    }
    OwnNodesInserted(v, e);
    OwnNodesInserted(l, e);
    NodesInserted(v, e);
    NodesInserted(l, e);
  }

  lemma UnlinkStep(v: seq<Entry>, l: seq<Entry>, n: Node)
    requires StablySorted(v, l) && SameNodes(v, l)
    ensures StablySorted(Drop(v, n), Drop(l, n)) && SameNodes(Drop(v, n), Drop(l, n))
  {
    hide Sorted, OfKey, Drop, Nodes, OwnNodes;
    DroppedKeeps(v, n);
    DroppedKeeps(l, n);
    forall k ensures OfKey(Drop(v, n), k) == OfKey(Drop(l, n), k) {
      OfKeyDropped(v, n, k);
      OfKeyDropped(l, n, k);
    }
    NodesDropped(v, n);
    NodesDropped(l, n);
  }

  /** Over every legal run, the sequence is what is linked, stably sorted by key. */
  lemma {:induction false} RunIsStableSort(ops: seq<Op>)
    requires Legal(ops)
    ensures StablySorted(Run(ops), Live(ops)) && SameNodes(Run(ops), Live(ops))
  {
    hide StablySorted, SameNodes, Nodes, Insert, Drop;
    if ops == [] {
      EmptyRun();
    } else {
      var was, op := ops[..|ops| - 1], ops[|ops| - 1];
      RunIsStableSort(was);
      match op
      case Began(e) => LinkStep(Run(was), Live(was), e);
      case Ended(n) => UnlinkStep(Run(was), Live(was), n);
      case Asked(_) =>
    }
  }

  lemma EmptyRun()
    ensures StablySorted([], []) && SameNodes([], [])
  {
  }

  /** There is one way only to sort stably. */
  lemma {:induction false} StableSortIsUnique(a: seq<Entry>, b: seq<Entry>, l: seq<Entry>)
    requires StablySorted(a, l) && StablySorted(b, l)
    ensures a == b
  {
    if a != [] { HeadsAgree(a, b); }
    if b != [] { HeadsAgree(b, a); }
    if a == [] { return; }
    var e := a[0];
    assert a == [e] + a[1..] && b == [e] + b[1..];
    forall k ensures OfKey(a[1..], k) == OfKey(b[1..], k) {
      OfKeyStep(e, a[1..], k);
      OfKeyStep(e, b[1..], k);
      assert OfKey(a, k) == OfKey(b, k);
      if e.key == k { assert OfKey(a, k)[1..] == OfKey(a[1..], k) && OfKey(b, k)[1..] == OfKey(b[1..], k); }
    }
    StableSortIsUnique(a[1..], b[1..], a[1..]);
  }

  lemma HeadsAgree(a: seq<Entry>, b: seq<Entry>)
    requires Sorted(a) && Sorted(b) && (forall k :: OfKey(a, k) == OfKey(b, k)) && a != []
    ensures b != [] && b[0].key <= a[0].key && (b[0].key == a[0].key ==> b[0] == a[0])
  {
    var k := a[0].key;
    assert OfKey(a, k)[0] == a[0];
    assert OfKey(b, k)[0] == a[0];
    OfKeyIn(b, k, a[0]);
  }

  // ---------------------------------------------------------------- timeouts

  predicate Expired(e: Entry, now: int, timeout: int) { now >= e.key + timeout }

  /** What GetTimeoutAcceptedSession looks at. */
  function TimedOut(v: seq<Entry>, now: int, timeout: int): Node? {
    if v != [] && Expired(v[0], now, timeout) then v[0].node else null
  }

  /** Entry `i` of `l` began earliest and, among those, was linked first. */
  predicate Earliest(l: seq<Entry>, i: int) {
    && 0 <= i < |l| && (forall j :: 0 <= j < |l| ==> l[i].key <= l[j].key)
    && (forall j :: 0 <= j < i ==> l[i].key < l[j].key)
  }

  /** The answer is NULL exactly if nothing linked has expired, otherwise what began earliest and,
      among those, was linked first. */
  lemma TimedOutIs(ops: seq<Op>, now: int, timeout: int)
    requires Legal(ops)
    ensures var r, l := TimedOut(Run(ops), now, timeout), Live(ops);
      && (r == null <==> forall j :: 0 <= j < |l| ==> !Expired(l[j], now, timeout))
      && (r != null ==> exists i :: Earliest(l, i) && Expired(l[i], now, timeout) && l[i].node == r)
  {
    var v, l := Run(ops), Live(ops);
    RunIsStableSort(ops);
    if v == [] {
      if l != [] { HeadOf(l, v, 0); }
    } else {
      var i := EarliestIs(v, l);
    }
  }

  lemma HeadOf(l: seq<Entry>, v: seq<Entry>, j: int)
    requires StablySorted(v, l) && 0 <= j < |l|
    ensures v != [] && v[0].key <= l[j].key
  {
    OfKeyIn(l, l[j].key, l[j]);
    OfKeyIn(v, l[j].key, l[j]);
  }

  lemma EarliestIs(v: seq<Entry>, l: seq<Entry>) returns (i: int)
    requires StablySorted(v, l) && v != []
    ensures Earliest(l, i) && l[i] == v[0]
  {
    var k := v[0].key;
    assert OfKey(l, k)[0] == v[0];
    i := FirstOfKey(l, k);
    forall j | 0 <= j < |l| ensures v[0].key <= l[j].key {
      HeadOf(l, v, j);
    }
  }

  lemma FirstOfKey(l: seq<Entry>, k: int) returns (i: int)
    requires OfKey(l, k) != []
    ensures 0 <= i < |l| && l[i] == OfKey(l, k)[0] && forall j :: 0 <= j < i ==> l[j].key != k
  {
    if l[0].key == k { return 0; }
    i := FirstOfKey(l[1..], k);
    i := i + 1;
    assert forall j :: 0 < j < i ==> l[j] == l[1..][j - 1];
  }

  datatype Reply = Done | Says(session: Node?)

  /** The replies of a run, one to each step. */
  function Replies(ops: seq<Op>, timeout: int): seq<Reply> {
    if ops == [] then [] else
      var was, op := ops[..|ops| - 1], ops[|ops| - 1];
      Replies(was, timeout) + [if op.Asked? then Says(TimedOut(Run(was), op.now, timeout)) else Done]
  }

  lemma {:induction false} ReplyAt(ops: seq<Op>, timeout: int, j: nat)
    requires j < |ops|
    ensures |Replies(ops, timeout)| == |ops|
    ensures Replies(ops, timeout)[j] ==
      if ops[j].Asked? then Says(TimedOut(Run(ops[..j]), ops[j].now, timeout)) else Done
    decreases |ops|
  {
    var n := |ops| - 1;
    if n > 0 { ReplyAt(ops[..n], timeout, if j < n then j else n - 1); }
    if j < n { assert ops[..n][..j] == ops[..j]; }
  }

  // ---------------------------------------------------------------- the law of a run

  /** Step `i` linked a session, which is still linked when step `j` comes. */
  predicate HeldSince(ops: seq<Op>, i: int, j: int) {
    && 0 <= i < j <= |ops| && ops[i].Began?
    && forall x :: i < x < j ==> ops[x] != Ended(ops[i].e.node)
  }

  /** The session of step `i` goes before that of step `j`: it began earlier or, if not later, was linked first. */
  predicate Precedes(ops: seq<Op>, i: int, j: int) {
    && 0 <= i < |ops| && 0 <= j < |ops| && ops[i].Began? && ops[j].Began?
    && (ops[i].e.key < ops[j].e.key || (ops[i].e.key == ops[j].e.key && i < j))
  }

  predicate HeldAs(ops: seq<Op>, i: int, j: int, e: Entry) { HeldSince(ops, i, j) && ops[i].e == e }

  /** `v` holds the sessions that are held before step `j`, all of them, in order of precedence; `at` says by
      which steps they were linked. */
  ghost predicate HeldInOrder(ops: seq<Op>, j: int, v: seq<Entry>, at: seq<int>) {
    && |at| == |v|
    && (forall p :: 0 <= p < |at| ==> HeldAs(ops, at[p], j, v[p]))
    && (forall p, q :: 0 <= p < q < |at| ==> Precedes(ops, at[p], at[q]))
    && (forall i :: HeldSince(ops, i, j) ==> i in at)
  }

  /** What the replies must be, said by steps and replies only: NULL exactly if no session held has expired,
      otherwise an expired one that precedes all others that are held. */
  ghost predicate Lawful(ops: seq<Op>, rs: seq<Reply>, timeout: int) {
    && |rs| == |ops|
    && (forall j :: 0 <= j < |ops| && !ops[j].Asked? ==> rs[j] == Done)
    && (forall j :: 0 <= j < |ops| && ops[j].Asked? ==> rs[j].Says?)
    && (forall j :: 0 <= j < |ops| && ops[j].Asked? && rs[j] == Says(null) ==>
      forall i :: HeldSince(ops, i, j) ==> ops[j].now < ops[i].e.key + timeout)
    && (forall j :: 0 <= j < |ops| && ops[j].Asked? && rs[j] != Says(null) ==>
      exists i :: FirstHeld(ops, i, j) && rs[j] == Says(ops[i].e.node) && ops[j].now >= ops[i].e.key + timeout)
  }

  ghost predicate FirstHeld(ops: seq<Op>, i: int, j: int) {
    HeldSince(ops, i, j) && forall x :: HeldSince(ops, x, j) && x != i ==> Precedes(ops, i, x)
  }

  lemma HeldStep(ops: seq<Op>, i: int, j: nat)
    requires j < |ops|
    ensures HeldSince(ops, i, j + 1) <==>
      ((i == j && ops[j].Began?) || (HeldSince(ops, i, j) && ops[j] != Ended(ops[i].e.node)))
  {
  }

  lemma HeldAsStep(ops: seq<Op>, i: int, j: nat, e: Entry)
    requires j < |ops|
    ensures HeldAs(ops, i, j + 1, e) <==>
      ((i == j && ops[j] == Began(e)) || (HeldAs(ops, i, j, e) && ops[j] != Ended(e.node)))
  {
    HeldStep(ops, i, j);
  }

  lemma BeganInOrder(ops: seq<Op>, j: nat, v: seq<Entry>, at: seq<int>)
    requires j < |ops| && ops[j].Began? && Sorted(v) && HeldInOrder(ops, j, v, at)
    ensures var e := ops[j].e; var p := Place(v, e.key);
      p <= |at| && HeldInOrder(ops, j + 1, Insert(v, e), at[..p] + [j] + at[p..])
  {
    hide HeldAs, HeldSince, Precedes;
    var e := ops[j].e;
    var p := Place(v, e.key);
    var at', v' := at[..p] + [j] + at[p..], Insert(v, e);
    forall q {:trigger at'[q]} | 0 <= q < |at'|
      ensures at'[q] == (if q < p then at[q] else if q == p then j else at[q - 1])
      ensures HeldAs(ops, at'[q], j + 1, v'[q])
    {
      HeldAsStep(ops, at'[q], j, v'[q]);
    }
    BeganPrecedes(ops, j, v, at, p);
    forall i | HeldSince(ops, i, j + 1) ensures i in at' {
      BeganStays(ops, i, j);
      if i == j { assert at'[p] == j; } else { InsertedIn(at, p, j, i); }
    }
  }

  lemma BeganStays(ops: seq<Op>, i: int, j: nat)
    requires j < |ops| && HeldSince(ops, i, j + 1)
    ensures i == j || HeldSince(ops, i, j)
  {
    HeldStep(ops, i, j);
  }

  lemma InsertedIn(at: seq<int>, p: nat, j: int, i: int)
    requires p <= |at| && i in at
    ensures i in at[..p] + [j] + at[p..]
  {
    assert at == at[..p] + at[p..];
  }

  /** A new session is preceded by those before its place, and precedes the others. */
  lemma BeganPrecedes(ops: seq<Op>, j: nat, v: seq<Entry>, at: seq<int>, p: nat)
    requires j < |ops| && ops[j].Began? && Sorted(v) && HeldInOrder(ops, j, v, at) && p == Place(v, ops[j].e.key)
    ensures forall q :: 0 <= q < p ==> Precedes(ops, at[q], j)
    ensures forall q :: p <= q < |at| ==> Precedes(ops, j, at[q])
  {
    BehindPlace(v, ops[j].e.key);
    assert forall q :: 0 <= q < |at| ==> HeldAs(ops, at[q], j, v[q]);
  }

  /** One entry leaves with its step: the others stay in order. */
  lemma EndedInOrder(ops: seq<Op>, j: nat, v: seq<Entry>, at: seq<int>) returns (at': seq<int>)
    requires j < |ops| && ops[j].Ended? && OwnNodes(v) && ops[j].n in Nodes(v) && HeldInOrder(ops, j, v, at)
    ensures HeldInOrder(ops, j + 1, Drop(v, ops[j].n), at')
  {
    hide HeldAs, HeldSince, Precedes, Nodes, OwnNodes;
    var k := DropIs(v, ops[j].n);
    at' := at[..k] + at[k + 1..];
    EndedOthers(v, k);
    var v' := v[..k] + v[k + 1..];
    forall q {:trigger at'[q]} | 0 <= q < |at'|
      ensures at'[q] == at[if q < k then q else q + 1] && v'[q] == v[if q < k then q else q + 1]
      ensures HeldAs(ops, at'[q], j + 1, v'[q])
    {
      HeldAsStep(ops, at'[q], j, v'[q]);
    }
    forall i | HeldSince(ops, i, j + 1) ensures i in at' {
      EndedStays(ops, i, j, at, v, k);
    }
  }

  lemma EndedOthers(v: seq<Entry>, k: nat)
    requires OwnNodes(v) && k < |v|
    ensures forall p :: 0 <= p < |v| && p != k ==> v[p].node != v[k].node
  {
  }

  lemma EndedStays(ops: seq<Op>, i: int, j: nat, at: seq<int>, v: seq<Entry>, k: nat)
    requires j < |ops| && HeldInOrder(ops, j, v, at) && k < |v| && ops[j] == Ended(v[k].node)
    requires HeldSince(ops, i, j + 1)
    ensures i in at[..k] + at[k + 1..]
  {
    HeldStep(ops, i, j);
    var p :| 0 <= p < |at| && at[p] == i;
    var at' := at[..k] + at[k + 1..];
    assert p != k && at'[if p < k then p else p - 1] == i;
  }

  lemma NextInOrder(ops: seq<Op>, j: nat, v: seq<Entry>, at: seq<int>) returns (at': seq<int>)
    requires j < |ops| && Sorted(v) && OwnNodes(v) && (ops[j].Ended? ==> ops[j].n in Nodes(v))
    requires HeldInOrder(ops, j, v, at)
    ensures HeldInOrder(ops, j + 1, Next(v, ops[j]), at')
  {
    hide HeldInOrder, Sorted, OwnNodes, Nodes, Insert, Drop;
    match ops[j]
    case Began(e) =>
      BeganInOrder(ops, j, v, at);
      at' := at[..Place(v, e.key)] + [j] + at[Place(v, e.key)..];
    case Ended(n) => at' := EndedInOrder(ops, j, v, at);
    case Asked(_) =>
      at' := at;
      AskedInOrder(ops, j, v, at);
  }

  lemma AskedInOrder(ops: seq<Op>, j: nat, v: seq<Entry>, at: seq<int>)
    requires j < |ops| && ops[j].Asked? && HeldInOrder(ops, j, v, at)
    ensures HeldInOrder(ops, j + 1, v, at)
  {
    forall i ensures HeldSince(ops, i, j + 1) <==> HeldSince(ops, i, j) {
      HeldStep(ops, i, j);
    }
  }

  /** The sequence of a run is what is held, in order of precedence. */
  lemma {:induction false} RunIsHeldInOrder(ops: seq<Op>, j: nat) returns (at: seq<int>)
    requires Legal(ops) && j <= |ops|
    ensures HeldInOrder(ops, j, Run(ops[..j]), at)
    decreases j
  {
    hide HeldInOrder, StablySorted, Next, OwnNodes;
    if j == 0 {
      NoneHeld(ops);
      return [];
    }
    LegalPrefix(ops, j - 1);
    LegalPrefix(ops, j);
    RunIsStableSort(ops[..j - 1]);
    assert ops[..j][..j - 1] == ops[..j - 1] && ops[..j][j - 1] == ops[j - 1];
    at := RunIsHeldInOrder(ops, j - 1);
    assert Sorted(Run(ops[..j - 1])) by { SortIsSorted(Run(ops[..j - 1]), Live(ops[..j - 1])); }
    at := NextInOrder(ops, j - 1, Run(ops[..j - 1]), at);
  }

  lemma NoneHeld(ops: seq<Op>)
    ensures HeldInOrder(ops, 0, Run(ops[..0]), [])
  {
  }

  lemma SortIsSorted(v: seq<Entry>, l: seq<Entry>)
    requires StablySorted(v, l)
    ensures Sorted(v)
  {
  }

  lemma ReplyIsLawful(ops: seq<Op>, j: nat, timeout: int)
    requires Legal(ops) && j < |ops| && ops[j].Asked?
    ensures var r := TimedOut(Run(ops[..j]), ops[j].now, timeout);
      && (r == null ==> forall i :: HeldSince(ops, i, j) ==> ops[j].now < ops[i].e.key + timeout)
      && (r != null ==>
        exists i :: FirstHeld(ops, i, j) && r == ops[i].e.node && ops[j].now >= ops[i].e.key + timeout)
  {
    var v := Run(ops[..j]);
    var at := RunIsHeldInOrder(ops, j);
    forall i | HeldSince(ops, i, j) ensures v != [] && (i == at[0] || Precedes(ops, at[0], i)) {
      var p :| 0 <= p < |at| && at[p] == i;
    }
    if v != [] { assert FirstHeld(ops, at[0], j); }
  }

  /** The replies of every run obey the law. */
  lemma RepliesAreLawful(ops: seq<Op>, timeout: int)
    requires Legal(ops)
    ensures Lawful(ops, Replies(ops, timeout), timeout)
  {
    hide TimedOut, Run, Replies, Legal;
    if ops != [] { ReplyAt(ops, timeout, 0); } else { NoReplies(timeout); }
    forall j | 0 <= j < |ops|
      ensures Replies(ops, timeout)[j] ==
        if ops[j].Asked? then Says(TimedOut(Run(ops[..j]), ops[j].now, timeout)) else Done
    {
      ReplyAt(ops, timeout, j);
    }
    forall j | 0 <= j < |ops| && ops[j].Asked?
      ensures var r := TimedOut(Run(ops[..j]), ops[j].now, timeout);
        && (r == null ==> forall i :: HeldSince(ops, i, j) ==> ops[j].now < ops[i].e.key + timeout)
        && (r != null ==>
          exists i :: FirstHeld(ops, i, j) && r == ops[i].e.node && ops[j].now >= ops[i].e.key + timeout)
    {
      ReplyIsLawful(ops, j, timeout);
    }
  }

  /** Which runs are legal, said by steps only: what is held is not linked again, only what is held is unlinked. */
  lemma LegalRuns(ops: seq<Op>, op: Op)
    ensures Legal([])
    ensures Legal(ops + [op]) <==> (
      && Legal(ops)
      && (op.Began? ==> forall i :: HeldSince(ops, i, |ops|) ==> ops[i].e.node != op.e.node)
      && (op.Ended? ==> exists i :: HeldSince(ops, i, |ops|) && ops[i].e.node == op.n))
  {
    var all := ops + [op];
    assert all[..|all| - 1] == ops && all[|all| - 1] == op;
    if Legal(ops) {
      if op.Began? { LinkedIsHeld(ops, op.e.node); }
      if op.Ended? { LinkedIsHeld(ops, op.n); }
    }
  }

  lemma LinkedIsHeld(ops: seq<Op>, n: Node)
    requires Legal(ops)
    ensures n in Nodes(Live(ops)) <==> exists i :: HeldSince(ops, i, |ops|) && ops[i].e.node == n
  {
    RunIsStableSort(ops);
    assert ops[..|ops|] == ops;
    var v := Run(ops);
    var at := RunIsHeldInOrder(ops, |ops|);
    if n in Nodes(v) {
      var p :| 0 <= p < |v| && v[p].node == n;
      assert HeldAs(ops, at[p], |ops|, v[p]);
    }
    if i :| HeldSince(ops, i, |ops|) && ops[i].e.node == n {
      var p :| 0 <= p < |at| && at[p] == i;
      assert HeldAs(ops, at[p], |ops|, v[p]) && v[p].node == n;
    }
  }

  lemma NoReplies(timeout: int)
    ensures Replies([], timeout) == []
  {
  }

  lemma {:induction false} LegalPrefix(ops: seq<Op>, k: nat)
    requires Legal(ops) && k <= |ops|
    ensures Legal(ops[..k])
  {
    if k == |ops| {
      assert ops[..k] == ops;
    } else {
      assert ops[..|ops| - 1][..k] == ops[..k];
      LegalPrefix(ops[..|ops| - 1], k);
    }
  }
}

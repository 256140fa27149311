/** The begin-timestamp index of src/rbtree_ins.c, and what the daemon does with it. */
module RbSession {
  import opened RbTree
  import opened RbLink
  import opened RbOrder
  import opened RbRuns
  import opened RbIndex
  import W = RbWalk

  /** GetTimeoutAcceptedSession. */
  method GetTimeoutAcceptedSession(t: RbRoot, now: int, timeout: int) returns (session: Node?)
    requires t.Valid()
    ensures session == TimedOut(View(t.Contents), now, timeout)
    ensures session != null ==> session in t.Contents && now >= session.unit.key + timeout
    ensures Sorted(View(t.Contents)) ==>
      (session == null <==> forall n :: n in t.Contents ==> now < n.unit.key + timeout)
    ensures Sorted(View(t.Contents)) && session != null ==>
      (forall n :: n in t.Contents ==> session.unit.key <= n.unit.key)
  {
    hide RbRoot.Valid, Sorted;
    ghost var s, v := t.Contents, View(t.Contents);
    var curr;
    ghost var steps;
    curr, steps := W.First(t);
    forall n | n in s && Sorted(v) ensures curr != null && curr.unit.key <= n.unit.key {
      var j :| 0 <= j < |s| && s[j] == n;
      FirstIsLeast(v, j);
      assert v[0].key == s[0].unit.key && v[j].key == n.unit.key;
    }
    if curr == null {
      return null;
    }
    session := curr;
    if now >= session.unit.key + timeout {
      return session;
    }
    return null;
  }

  lemma FirstIsLeast(v: seq<Entry>, j: int)
    requires Sorted(v) && 0 <= j < |v|
    ensures v[0].key <= v[j].key
  {
  }

  /** The timeout loop of the event worker: it closes, in sequence, exactly the sessions that have expired. */
  method CloseTimedOut(t: RbRoot, now: int, timeout: int) returns (closed: seq<Node>)
    requires t.Valid() && Sorted(View(t.Contents))
    modifies t`root, t`tree, t`Contents, t.Contents
    ensures t.Valid() && View(closed) + View(t.Contents) == old(View(t.Contents))
    ensures forall n :: n in closed ==> now >= n.unit.key + timeout
    ensures forall n :: n in t.Contents ==> now < n.unit.key + timeout
  {
    hide RbRoot.Valid, Sorted, Strict, AsMap, Drop, TimedOut;
    ghost var s, v := t.Contents, View(t.Contents);
    closed := [];
    while true
      invariant t.Valid() && View(closed) + View(t.Contents) == v && Sorted(View(t.Contents))
      invariant forall i :: 0 <= i < |t.Contents| ==> t.Contents[i] in s
      invariant forall n :: n in closed ==> now >= n.unit.key + timeout
      decreases |t.Contents|
    {
      var session := GetTimeoutAcceptedSession(t, now, timeout);
      if session == null {
        break;
      }
      ghost var rest := View(t.Contents);
      FirstOut(rest, session, now, timeout);
      ClosedOne(closed, session, rest);
      Unlink(t, session);
      closed := closed + [session];
    }
  }

  lemma FirstOut(v: seq<Entry>, n: Node, now: int, timeout: int)
    requires TimedOut(v, now, timeout) == n && Sorted(v)
    ensures v != [] && v[0].node == n && Drop(v, n) == v[1..] && Sorted(v[1..])
  {
  }

  lemma ClosedOne(closed: seq<Node>, n: Node, v: seq<Entry>)
    requires v != [] && v[0] == Entry(n, n.unit.key)
    ensures View(closed + [n]) + v[1..] == View(closed) + v
  {
    assert View(closed + [n]) == View(closed) + [v[0]];
  }

  // ---------------------------------------------------------------- every run

  /** The sessions that a run links. */
  ghost function Sessions(ops: seq<Op>): set<Node> { set i | 0 <= i < |ops| && ops[i].Began? :: ops[i].e.node }

  /** The node `n` is linked exactly if the run has it. */
  lemma LinkedIs(s: seq<Node>, ops: seq<Op>, n: Node)
    requires Legal(ops) && View(s) == Run(ops)
    ensures n in s <==> n in Nodes(Live(ops))
  {
    RunIsStableSort(ops);
    var v := View(s);
    assert n in s ==> exists i :: 0 <= i < |s| && s[i] == n && v[i].node == n;
    assert n in Nodes(v) ==> exists i :: 0 <= i < |v| && v[i].node == n && s[i] == n;
  }

  lemma NextStep(ops: seq<Op>, k: nat)
    requires Legal(ops) && k < |ops|
    ensures Legal(ops[..k]) && Run(ops[..k + 1]) == Next(Run(ops[..k]), ops[k]) && Sorted(Run(ops[..k]))
    ensures ops[k].Began? ==> ops[k].e.node !in Nodes(Live(ops[..k])) && ops[k].e.node in Sessions(ops)
    ensures ops[k].Ended? ==> ops[k].n in Nodes(Live(ops[..k]))
  {
    LegalPrefix(ops, k);
    LegalPrefix(ops, k + 1);
    assert ops[..k + 1][..k] == ops[..k];
    RunIsStableSort(ops[..k]);
  }

  lemma RepliesStep(ops: seq<Op>, k: nat, timeout: int)
    requires k < |ops|
    ensures Replies(ops[..k + 1], timeout) ==
      Replies(ops[..k], timeout) + [if ops[k].Asked? then Says(TimedOut(Run(ops[..k]), ops[k].now, timeout)) else Done]
  {
    assert ops[..k + 1][..k] == ops[..k];
  }

  /** One step of the daemon on the tree is that step on the sorted sequence. */
  method Handle(t: RbRoot, op: Op, timeout: int, ghost nodes: set<Node>) returns (reply: Reply)
    requires t.Valid() && Sorted(View(t.Contents)) && OwnUnits(nodes)
    requires forall i :: 0 <= i < |t.Contents| ==> t.Contents[i] in nodes
    requires op.Began? ==> op.e.node in nodes && op.e.node !in t.Contents
    requires op.Ended? ==> op.n in t.Contents
    modifies t`root, t`tree, t`Contents, nodes, set n | n in nodes :: n.unit
    ensures t.Valid() && View(t.Contents) == Next(old(View(t.Contents)), op)
    ensures reply == if op.Asked? then Says(TimedOut(old(View(t.Contents)), op.now, timeout)) else Done
    ensures forall i :: 0 <= i < |t.Contents| ==> t.Contents[i] in nodes
  {
    hide RbRoot.Valid, Sorted, Strict, AsMap, Drop, Insert, TimedOut;
    reply := Done;
    match op {
      case Began(e) =>
        ghost var s := t.Contents;
        var r;
        ghost var i, steps;
        Stamp(e, s, nodes);
        r, i, steps := LinkAllowDuplicate(t, e.node);
        WithAt(s, i, e.node);
      case Ended(n) => Unlink(t, n);
      case Asked(now) =>
        var session := GetTimeoutAcceptedSession(t, now, timeout);
        reply := Says(session);
    }
  }

  /** Over every run of links, unlinks and timeout queries on an empty index, in which a session struct may be
      linked again under another timestamp once it is unlinked, the tree stays valid, its sequence is that of
      the run on stably sorted sequences, and so are the replies. */
  method Serve(t: RbRoot, ops: seq<Op>, timeout: int)
    returns (replies: seq<Reply>, ghost at: seq<int>)
    requires t.Valid() && t.Contents == [] && Legal(ops) && OwnUnits(Sessions(ops))
    modifies t`root, t`tree, t`Contents, Sessions(ops), set n | n in Sessions(ops) :: n.unit
    ensures t.Valid() && View(t.Contents) == Run(ops) && replies == Replies(ops, timeout)
    ensures StablySorted(View(t.Contents), Live(ops))
    ensures Lawful(ops, replies, timeout) && HeldInOrder(ops, |ops|, View(t.Contents), at)
  {
    hide RbRoot.Valid, Sorted, Legal, Run, Replies, Live, TimedOut, Nodes, Next, OwnUnits, StablySorted, Sessions,
      Lawful, HeldInOrder;
    replies := [];
    var k := 0;
    StartRun(timeout);
    assert ops[..0] == [] && View(t.Contents) == [];
    while k < |ops|
      invariant 0 <= k <= |ops| && t.Valid() && View(t.Contents) == Run(ops[..k])
      invariant replies == Replies(ops[..k], timeout)
      invariant forall i :: 0 <= i < |t.Contents| ==> t.Contents[i] in Sessions(ops)
      decreases |ops| - k
    {
      NextStep(ops, k);
      RepliesStep(ops, k, timeout);
      if ops[k].Began? { LinkedIs(t.Contents, ops[..k], ops[k].e.node); }
      if ops[k].Ended? { LinkedIs(t.Contents, ops[..k], ops[k].n); }
      var reply := Handle(t, ops[k], timeout, Sessions(ops));
      replies := replies + [reply];
      k := k + 1;
    }
    assert ops[..k] == ops;
    RunIsStableSort(ops);
    RepliesAreLawful(ops, timeout);
    at := RunIsHeldInOrder(ops, |ops|);
  }

  lemma StartRun(timeout: int)
    ensures Run([]) == [] && Replies([], timeout) == []
  {
  }
}

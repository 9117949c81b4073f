/**
 * What the reference counts of hw5/src/mailbox.c stand for over whole runs, and which references are
 * never given up: finalization discards messages without releasing their senders.
 */
module MailboxCounts {
  import opened MailboxProtocol

  /** The references threads have of their own. */
  function HeldBy(s: State, x: Id, ts: seq<Thread>): nat {
    if ts == [] then 0 else RefsOf(s, x)[Held(ts[0])] + HeldBy(s, x, ts[1..])
  }

  /** The messages from `x` in the queues of other mailboxes. */
  function QueuedIn(s: State, x: Id, bs: seq<Id>): nat
    requires forall i :: 0 <= i < |bs| ==> bs[i] in s.boxes
  {
    if bs == [] then 0 else From(s.boxes[bs[0]].queue, x) + QueuedIn(s, x, bs[1..])
  }

  function Multiplicity(m: multiset<Ref>, rs: seq<Ref>): nat {
    if rs == [] then 0 else m[rs[0]] + Multiplicity(m, rs[1..])
  }

  lemma {:induction false} DistinctRefs(m: multiset<Ref>, rs: seq<Ref>)
    requires forall i, j :: 0 <= i < j < |rs| ==> rs[i] != rs[j]
    ensures Multiplicity(m, rs) <= |m|
  {
    if rs != [] {
      var rest := m[rs[0] := 0];
      DistinctRefs(rest, rs[1..]);
      SameMultiplicity(m, rest, rs[1..], rs[0]);
      assert m == rest + multiset{}[rs[0] := m[rs[0]]];
    }
  }

  lemma {:induction false} SameMultiplicity(m: multiset<Ref>, k: multiset<Ref>, rs: seq<Ref>, r: Ref)
    requires r !in rs && forall q :: q != r ==> m[q] == k[q]
    ensures Multiplicity(m, rs) == Multiplicity(k, rs)
  {
    if rs != [] {
      assert rs[0] in rs;
      SameMultiplicity(m, k, rs[1..], r);
    }
  }

  lemma {:induction false} MultiplicityAppend(m: multiset<Ref>, a: seq<Ref>, b: seq<Ref>)
    ensures Multiplicity(m, a + b) == Multiplicity(m, a) + Multiplicity(m, b)
  {
    if a == [] {
      assert a + b == b;
    } else {
      assert (a + b)[1..] == a[1..] + b;
      MultiplicityAppend(m, a[1..], b);
    }
  }

  function HeldRefs(ts: seq<Thread>): (rs: seq<Ref>)
    ensures |rs| == |ts| && forall i :: 0 <= i < |ts| ==> rs[i] == Held(ts[i])
  {
    if ts == [] then [] else [Held(ts[0])] + HeldRefs(ts[1..])
  }

  function QueuedRefs(bs: seq<Id>): (rs: seq<Ref>)
    ensures |rs| == |bs| && forall i :: 0 <= i < |bs| ==> rs[i] == Queued(bs[i])
  {
    if bs == [] then [] else [Queued(bs[0])] + QueuedRefs(bs[1..])
  }

  lemma {:induction false} HeldIsMultiplicity(s: State, x: Id, ts: seq<Thread>)
    ensures HeldBy(s, x, ts) == Multiplicity(RefsOf(s, x), HeldRefs(ts))
  {
    if ts != [] {
      HeldIsMultiplicity(s, x, ts[1..]);
      assert HeldRefs(ts)[1..] == HeldRefs(ts[1..]);
    }
  }

  lemma {:induction false} QueuedIsMultiplicity(s: State, x: Id, bs: seq<Id>)
    requires Inv(s) && forall i :: 0 <= i < |bs| ==> bs[i] in s.boxes && bs[i] != x && s.boxes[bs[i]].owner == Free
    ensures QueuedIn(s, x, bs) == Multiplicity(RefsOf(s, x), QueuedRefs(bs))
  {
    hide Inv, From;
    if bs != [] {
      InvSenders(s, bs[0], x);
      QueuedIsMultiplicity(s, x, bs[1..]);
      assert QueuedRefs(bs)[1..] == QueuedRefs(bs[1..]);
    }
  }

  predicate Distinct(s: seq<int>) { forall i, j :: 0 <= i < j < |s| ==> s[i] != s[j] }

  /**
   * A mailbox's count is at least the references threads have of their own plus the messages from it in
   * the unlocked queues of other mailboxes.
   */
  lemma CountBound(run: seq<State>, actions: seq<Action>, k: nat, x: Id, ts: seq<Thread>, bs: seq<Id>)
    requires IsRun(run, actions) && k < |run| && x in run[k].boxes && Distinct(ts) && Distinct(bs)
    requires forall i :: 0 <= i < |bs| ==> bs[i] in run[k].boxes && bs[i] != x && run[k].boxes[bs[i]].owner == Free
    ensures run[k].boxes[x].count >= HeldBy(run[k], x, ts) + QueuedIn(run[k], x, bs)
  {
    RunInv(run, actions, k);
    hide IsRun, Inv;
    var s := run[k];
    HeldIsMultiplicity(s, x, ts);
    QueuedIsMultiplicity(s, x, bs);
    MultiplicityAppend(RefsOf(s, x), HeldRefs(ts), QueuedRefs(bs));
    DistinctRefs(RefsOf(s, x), HeldRefs(ts) + QueuedRefs(bs));
    InvBox(s, x);
  }

  /** No message in an unlocked queue names a freed sender. */
  lemma SenderAlive(run: seq<State>, actions: seq<Action>, k: nat, b: Id, i: nat)
    requires IsRun(run, actions) && k < |run| && b in run[k].boxes && run[k].boxes[b].owner == Free
    requires i < |run[k].boxes[b].queue| && CountsSender(b, run[k].boxes[b].queue[i])
    ensures run[k].boxes[b].queue[i].from in run[k].boxes
  {
    RunInv(run, actions, k);
    hide IsRun, Inv;
    var x := run[k].boxes[b].queue[i].from;
    InvSenders(run[k], b, x);
    FromPositive(run[k].boxes[b].queue, i);
  }

  lemma {:induction false} FromPositive(q: seq<Entry>, i: nat)
    requires i < |q| && q[i].Message?
    ensures From(q, q[i].from) > 0
  {
    if i > 0 { FromPositive(q[1..], i - 1); }
  }

  /** A mailbox that no longer exists, and a reference that one of the messages it was freed with stood for. */
  ghost predicate Lost(s: State, x: Id, b: Id) {
    x in s.boxes && b in s.used && b !in s.boxes && RefsOf(s, x)[Queued(b)] > 0
  }

  /** No action gives such a reference up. */
  lemma LostStays(s: State, a: Action, x: Id, b: Id)
    requires Inv(s) && Enabled(s, a) && Lost(s, x, b)
    ensures Act(s, a).Going? && Lost(Act(s, a).state, x, b)
  {
    hide Inv, StepOf, Safe, Lost;
    ActKeeps(s, a);
    match a
    case Create(t, mb) => LostCreated(s, t, mb, x, b);
    case Give(t, u, mb) => LostGiven(s, t, u, mb, x, b);
    case Begin(t, c) => LostElsewhere(s, At(s, t, Start(c)), x, b);
    case Continue(t) =>
      ContinueStep(s, t);
      LostContinued(s, t, x, b);
  }

  lemma LostCreated(s: State, t: Thread, mb: Id, x: Id, b: Id)
    requires Inv(s) && mb !in s.used && Lost(s, x, b)
    ensures Lost(Created(s, t, mb), x, b)
  {
    InvUsed(s, x);
    hide Inv;
  }

  lemma LostGiven(s: State, t: Thread, u: Thread, mb: Id, x: Id, b: Id)
    requires Lost(s, x, b)
    ensures Lost(Given(s, t, u, mb), x, b)
  {
  }

  lemma LostContinued(s: State, t: Thread, x: Id, b: Id)
    requires Inv(s) && t in s.pcs && Unblocked(s, s.pcs[t]) && Safe(s, s.pcs[t]) && Lost(s, x, b)
    ensures Lost(StepOf(s, t, s.pcs[t]), x, b)
  {
    hide Inv, Lost, SenderCounted, SenderReleased, Referenced, Unreferenced;
    var n := StepOf(s, t, s.pcs[t]);
    match s.pcs[t]
    case AddRefLock(mb, from) => LostCounted(s, t, mb, from, x, b);
    case NextUnrefLock(mb, from, e) => LostReleased(s, t, mb, from, e, x, b);
    case RefLock(mb) => LostReferenced(s, t, mb, x, b);
    case UnrefLock(mb) => LostUnreferenced(s, t, mb, x, b);
    case _ => LostElsewhere(s, n, x, b);
  }

  lemma LostElsewhere(s: State, n: State, x: Id, b: Id)
    requires Lost(s, x, b) && n.refs == s.refs && n.used == s.used && n.boxes.Keys == s.boxes.Keys
    ensures Lost(n, x, b)
  {
  }

  lemma LostCounted(s: State, t: Thread, mb: Id, from: Id, x: Id, b: Id)
    requires Lost(s, x, b) && from in s.boxes
    ensures Lost(SenderCounted(s, t, mb, from), x, b)
  {
  }

  lemma LostReferenced(s: State, t: Thread, mb: Id, x: Id, b: Id)
    requires Lost(s, x, b) && mb in s.boxes
    ensures Lost(Referenced(s, t, mb), x, b)
  {
  }

  lemma LostReleased(s: State, t: Thread, mb: Id, from: Id, e: Entry, x: Id, b: Id)
    requires Inv(s) && t in s.pcs && s.pcs[t] == NextUnrefLock(mb, from, e) && from in s.boxes && Lost(s, x, b)
    ensures Lost(SenderReleased(s, t, mb, from, e), x, b)
  {
    hide Inv;
    InvThread(s, t);
    SeveralRefs(s, t, x, b);
  }

  lemma LostUnreferenced(s: State, t: Thread, mb: Id, x: Id, b: Id)
    requires Inv(s) && t in s.pcs && s.pcs[t] == UnrefLock(mb) && mb in s.boxes && Lost(s, x, b)
    ensures Lost(Unreferenced(s, t, mb), x, b)
  {
    hide Inv;
    SeveralRefs(s, t, x, b);
  }

  lemma SeveralRefs(s: State, t: Thread, x: Id, b: Id)
    requires Inv(s) && t in s.pcs && Lost(s, x, b) && (s.pcs[t].UnrefLock? || s.pcs[t].NextUnrefLock?)
    ensures s.pcs[t].UnrefLock? && s.pcs[t].mb == x ==> s.boxes[x].count >= 2
    ensures s.pcs[t].NextUnrefLock? && s.pcs[t].from == x ==> s.boxes[x].count >= 2
  {
    hide Inv;
    InvThread(s, t);
    InvBox(s, x);
    var rs := if s.pcs[t].UnrefLock? then [Queued(b), Held(t)] else [Queued(b), Queued(s.pcs[t].mb)];
    DistinctRefs(RefsOf(s, x), rs);
    assert rs[1..][1..] == [];
    if s.pcs[t].NextUnrefLock? { SenderKept(s, t, s.pcs[t].mb, s.pcs[t].from, s.pcs[t].entry); }
  }

  // ---- exactly when a reference is lost ----

  /** On both ways to finalization, the references lost are those of the messages in the queue. */
  lemma LossAtFinalization(s: State, t: Thread, b: Id, r: Ref, pc: Pc, x: Id)
    requires Inv(s) && LastRef(s, t, b, r, pc) && x != b
    ensures Lost(Finalized(s, t, b, pc), x, b) <==> From(s.boxes[b].queue, x) > 0
  {
    hide Inv, From;
    InvSenders(s, b, x);
    InvBox(s, b);
  }

  /** The action frees `b` with a message from `x` in its queue. */
  ghost predicate Discards(s: State, a: Action, x: Id, b: Id) {
    && Enabled(s, a) && Act(s, a).Going? && b in s.boxes && b !in Act(s, a).state.boxes
    && x != b && From(s.boxes[b].queue, x) > 0
  }

  /** The reference that a thread inside `mb_unref` is about to give up. */
  function RefGivenUp(t: Thread, pc: Pc): Ref
    requires pc.UnrefLock? || pc.NextUnrefLock?
  {
    if pc.UnrefLock? then Held(t) else Queued(pc.mb)
  }

  /** Where the thread goes from there if that was the last one. */
  function AfterLast(pc: Pc): Pc
    requires pc.UnrefLock? || pc.NextUnrefLock?
  {
    if pc.UnrefLock? then Idle else NextDequeue(pc.mb, pc.from, pc.entry)
  }

  /** Nothing but `mb_unref`, called by a program or for the sender of a message, frees a mailbox. */
  lemma FreedByUnref(s: State, a: Action, b: Id)
    requires Inv(s) && Enabled(s, a) && Act(s, a).Going? && b in s.boxes && b !in Act(s, a).state.boxes
    ensures a.Continue? && a.thread in s.pcs && (s.pcs[a.thread].UnrefLock? || s.pcs[a.thread].NextUnrefLock?)
    ensures var pc := s.pcs[a.thread];
            && LastRef(s, a.thread, b, RefGivenUp(a.thread, pc), AfterLast(pc))
            && Act(s, a).state == Finalized(s, a.thread, b, AfterLast(pc))
  {
    hide Inv, LastRef, Finalized, RefsOf;
    var t := a.thread;
    match s.pcs[t]
    case NextUnrefLock(mb, from, e) =>
      SenderKept(s, t, mb, from, e);
      if s.boxes[from].count == 1 { SenderFreed(s, t, mb, from, e); }
    case UnrefLock(mb) =>
      if s.boxes[mb].count == 1 { LastUnref(s, t, mb); }
    case _ =>
  }

  /** The references that an action adds. */
  predicate Gains(s: State, a: Action, x: Id, r: Ref)
    requires Enabled(s, a)
  {
    match a
    case Create(t, b) => x == b && r == Held(t)
    case Give(t, u, b) => x == b && r == Held(u)
    case Begin(t, c) => false
    case Continue(t) =>
      var pc := s.pcs[t];
      (pc.RefLock? && x == pc.mb && r == Held(t)) || (pc.AddRefLock? && x == pc.from && r == Queued(pc.mb))
  }

  lemma RefGained(s: State, a: Action, x: Id, r: Ref)
    requires Enabled(s, a) && Act(s, a).Going? && RefsOf(Act(s, a).state, x)[r] > RefsOf(s, x)[r]
    ensures Gains(s, a, x, r)
  {
    hide Unblocked, MayCall, Safe, RefsOf, SenderCounted, SenderReleased, Referenced, Unreferenced, Given, Created;
    match a
    case Create(t, b) => CreatedRefs(s, t, b, x, r);
    case Give(t, u, b) => GivenRef(s, t, u, b, x, r);
    case Begin(t, c) => SameRefs(s, Act(s, a).state, x);
    case Continue(t) => StepGained(s, t, x, r);
  }

  lemma StepGained(s: State, t: Thread, x: Id, r: Ref)
    requires t in s.pcs && Safe(s, s.pcs[t])
    ensures var pc := s.pcs[t];
            RefsOf(StepOf(s, t, pc), x)[r] > RefsOf(s, x)[r] ==>
              (pc.RefLock? && x == pc.mb && r == Held(t)) || (pc.AddRefLock? && x == pc.from && r == Queued(pc.mb))
  {
    hide RefsOf, SenderCounted, SenderReleased, Referenced, Unreferenced;
    match s.pcs[t]
    case AddRefLock(mb, from) => CountedRefs(s, t, mb, from, x, r);
    case NextUnrefLock(mb, from, e) => ReleasedRefs(s, t, mb, from, e, x, r);
    case RefLock(mb) => ReferencedRefs(s, t, mb, x, r);
    case UnrefLock(mb) => UnreferencedRefs(s, t, mb, x, r);
    case _ => SameRefs(s, StepOf(s, t, s.pcs[t]), x);
  }

  lemma CreatedRefs(s: State, t: Thread, b: Id, x: Id, r: Ref)
    ensures RefsOf(Created(s, t, b), x)[r] > RefsOf(s, x)[r] ==> x == b && r == Held(t)
  {
  }

  lemma GivenRef(s: State, t: Thread, u: Thread, b: Id, x: Id, r: Ref)
    ensures RefsOf(Given(s, t, u, b), x)[r] > RefsOf(s, x)[r] ==> x == b && r == Held(u)
  {
  }

  lemma CountedRefs(s: State, t: Thread, mb: Id, from: Id, x: Id, r: Ref)
    requires from in s.boxes
    ensures RefsOf(SenderCounted(s, t, mb, from), x)[r] > RefsOf(s, x)[r] ==> x == from && r == Queued(mb)
  {
  }

  lemma ReferencedRefs(s: State, t: Thread, mb: Id, x: Id, r: Ref)
    requires mb in s.boxes
    ensures RefsOf(Referenced(s, t, mb), x)[r] > RefsOf(s, x)[r] ==> x == mb && r == Held(t)
  {
  }

  lemma LessRefs(s: State, t: Thread, b: Id, q: Ref, pc: Pc, x: Id, r: Ref)
    requires b in s.boxes
    ensures RefsOf(GivenUp(s, t, b, q, pc), x)[r] <= RefsOf(s, x)[r]
    ensures RefsOf(Freed(GivenUp(s, t, b, q, pc), b), x)[r] <= RefsOf(s, x)[r]
  {
  }

  lemma ReleasedRefs(s: State, t: Thread, mb: Id, from: Id, e: Entry, x: Id, r: Ref)
    requires from in s.boxes
    ensures RefsOf(SenderReleased(s, t, mb, from, e), x)[r] <= RefsOf(s, x)[r]
  {
    LessRefs(s, t, from, Queued(mb), NextUnrefUnlock(mb, from, e), x, r);
    LessRefs(s, t, from, Queued(mb), NextDequeue(mb, from, e), x, r);
    hide GivenUp, Freed, RefsOf;
  }

  lemma UnreferencedRefs(s: State, t: Thread, mb: Id, x: Id, r: Ref)
    requires mb in s.boxes
    ensures RefsOf(Unreferenced(s, t, mb), x)[r] <= RefsOf(s, x)[r]
  {
    LessRefs(s, t, mb, Held(t), Unlock(mb), x, r);
    LessRefs(s, t, mb, Held(t), Idle, x, r);
    hide GivenUp, Freed, RefsOf;
  }

  /** A new reference of a message is one in a mailbox that exists. */
  lemma NewRef(s: State, a: Action, x: Id, b: Id)
    requires Inv(s) && Enabled(s, a) && Act(s, a).Going? && b !in s.boxes
    ensures RefsOf(Act(s, a).state, x)[Queued(b)] <= RefsOf(s, x)[Queued(b)]
  {
    if RefsOf(Act(s, a).state, x)[Queued(b)] > RefsOf(s, x)[Queued(b)] {
      RefGained(s, a, x, Queued(b));
      InvThread(s, a.thread);
    }
    hide Inv, Act;
  }

  lemma UsedGrows(s: State, a: Action)
    requires Enabled(s, a) && Act(s, a).Going?
    ensures Act(s, a).state.used == if a.Create? then s.used + {a.mb} else s.used
    ensures a.Create? ==> a.mb in Act(s, a).state.boxes
  {
  }

  /**
   * One action: a reference is lost if it was lost before, or the action frees its mailbox with the message in
   * the queue.
   */
  lemma LossStep(s: State, a: Action, x: Id, b: Id)
    requires Inv(s) && Enabled(s, a)
    ensures Act(s, a).Going? && (Lost(Act(s, a).state, x, b) <==> Lost(s, x, b) || Discards(s, a, x, b))
  {
    hide Inv, Act, Enabled, From, LastRef, Finalized, RefsOf;
    ActKeeps(s, a);
    var n := Act(s, a).state;
    if Lost(s, x, b) { LostStays(s, a, x, b); }
    if b in s.boxes && b !in n.boxes && x != b {
      FreedByUnref(s, a, b);
      LossAtFinalization(s, a.thread, b, RefGivenUp(a.thread, s.pcs[a.thread]), AfterLast(s.pcs[a.thread]), x);
    }
    if Lost(n, x, b) && b !in s.boxes {
      NewRef(s, a, x, b);
      UsedGrows(s, a);
      RefOfExisting(s, x, b);
    }
    InvUsed(s, b);
    if Discards(s, a, x, b) { InvUsed(n, b); UsedGrows(s, a); }
  }

  lemma RefOfExisting(s: State, x: Id, b: Id)
    requires Inv(s) && RefsOf(s, x)[Queued(b)] > 0
    ensures x in s.boxes
  {
  }

  /** The steps of a run before state `k` in which `b` was freed with a message from `x` in its queue. */
  ghost predicate DiscardedBefore(run: seq<State>, actions: seq<Action>, k: nat, x: Id, b: Id)
    requires k <= |actions| < |run|
  {
    exists i :: 0 <= i < k && Discards(run[i], actions[i], x, b)
  }

  /** Over every run: a reference is lost exactly if an earlier step freed the mailbox with the message in its queue. */
  lemma {:induction false} RunLoss(run: seq<State>, actions: seq<Action>, k: nat, x: Id, b: Id)
    requires IsRun(run, actions) && k < |run|
    ensures Lost(run[k], x, b) <==> DiscardedBefore(run, actions, k, x, b)
  {
    if k == 0 {
    } else {
      RunLoss(run, actions, k - 1, x, b);
      RunInv(run, actions, k - 1);
      hide Inv, Lost, Discards, Act, Enabled;
      LossStep(run[k - 1], actions[k - 1], x, b);
    }
  }

  /**
   * A mailbox whose message was discarded is not freed in the rest of any run: its count stays above the
   * references that threads and messages have.
   */
  lemma LostForever(run: seq<State>, actions: seq<Action>, i: nat, k: nat, x: Id, b: Id, ts: seq<Thread>, bs: seq<Id>)
    requires IsRun(run, actions) && i < k < |run| && Discards(run[i], actions[i], x, b) && Distinct(ts) && Distinct(bs)
    requires forall j :: 0 <= j < |bs| ==> bs[j] in run[k].boxes && bs[j] != x && run[k].boxes[bs[j]].owner == Free
    ensures x in run[k].boxes && run[k].boxes[x].count > HeldBy(run[k], x, ts) + QueuedIn(run[k], x, bs)
  {
    RunLoss(run, actions, k, x, b);
    RunInv(run, actions, k);
    hide IsRun, Inv, Discards, Multiplicity, HeldBy, QueuedIn;
    var s := run[k];
    HeldIsMultiplicity(s, x, ts);
    QueuedIsMultiplicity(s, x, bs);
    MultiplicityAppend(RefsOf(s, x), HeldRefs(ts), QueuedRefs(bs));
    MultiplicityAppend(RefsOf(s, x), HeldRefs(ts) + QueuedRefs(bs), [Queued(b)]);
    OneRefMore(RefsOf(s, x), Queued(b));
    DistinctRefs(RefsOf(s, x), HeldRefs(ts) + QueuedRefs(bs) + [Queued(b)]);
    InvBox(s, x);
  }

  lemma OneRefMore(m: multiset<Ref>, r: Ref)
    ensures Multiplicity(m, [r]) == m[r]
  {
    assert [r][1..] == [];
  }

  // ---- exactly when a count equals the references there are ----

  /** References are held by threads that exist, and no mailbox counts a message to itself. */
  ghost predicate RefsKnown(s: State) {
    && (forall x, t :: RefsOf(s, x)[Held(t)] > 0 ==> t in s.pcs)
    && (forall x :: RefsOf(s, x)[Queued(x)] == 0)
  }

  lemma RefsKnownStep(s: State, a: Action)
    requires Inv(s) && RefsKnown(s) && Enabled(s, a)
    ensures Act(s, a).Going? && RefsKnown(Act(s, a).state)
  {
    hide Inv, Act, RefsOf, RefsKnown;
    ActKeeps(s, a);
    var n := Act(s, a).state;
    ThreadsStay(s, a);
    forall x, r | RefsOf(n, x)[r] > 0
      ensures (r.Held? ==> r.thread in n.pcs) && (r.Queued? ==> r.mb != x)
    {
      if RefsOf(s, x)[r] > 0 {
        KnownRef(s, x, r);
      } else {
        RefGained(s, a, x, r);
        if a.Continue? { InvThread(s, a.thread); }
      }
    }
    KnownRefs(n);
  }

  lemma KnownRefs(n: State)
    requires forall x, r :: RefsOf(n, x)[r] > 0 ==> (r.Held? ==> r.thread in n.pcs) && (r.Queued? ==> r.mb != x)
    ensures RefsKnown(n)
  {
    hide RefsOf;
  }

  lemma ThreadsStay(s: State, a: Action)
    requires Enabled(s, a) && Act(s, a).Going?
    ensures Act(s, a).state.pcs.Keys == s.pcs.Keys
  {
  }

  lemma {:induction false} RunRefsKnown(run: seq<State>, actions: seq<Action>, k: nat)
    requires IsRun(run, actions) && k < |run|
    ensures RefsKnown(run[k])
  {
    if k == 0 {
    } else {
      RunRefsKnown(run, actions, k - 1);
      RunInv(run, actions, k - 1);
      hide Inv, RefsKnown, Act, Enabled;
      RefsKnownStep(run[k - 1], actions[k - 1]);
    }
  }

  /** Distinct references add up to the whole multiset exactly if none is left out. */
  lemma {:induction false} AllRefs(m: multiset<Ref>, rs: seq<Ref>)
    requires forall i, j :: 0 <= i < j < |rs| ==> rs[i] != rs[j]
    ensures Multiplicity(m, rs) == |m| <==> forall r :: r in m ==> r in rs
  {
    if rs == [] {
      if |m| != 0 { var r :| r in m; }
    } else {
      var rest := m[rs[0] := 0];
      AllRefs(rest, rs[1..]);
      SameMultiplicity(m, rest, rs[1..], rs[0]);
      assert m == rest + multiset{}[rs[0] := m[rs[0]]];
      assert forall r :: r in rs <==> r == rs[0] || r in rs[1..];
    }
  }

  /** The sequence lists each element of the set once. */
  ghost predicate Lists(xs: seq<int>, of: set<int>) { Distinct(xs) && (forall x :: x in xs <==> x in of) }

  lemma KnownRef(s: State, x: Id, r: Ref)
    requires RefsKnown(s) && RefsOf(s, x)[r] > 0
    ensures (r.Held? ==> r.thread in s.pcs) && (r.Queued? ==> r.mb != x)
  {
  }

  lemma InRefs(ts: seq<Thread>, bs: seq<Id>, r: Ref)
    ensures r in HeldRefs(ts) + QueuedRefs(bs) <==> if r.Held? then r.thread in ts else r.mb in bs
  {
    if r.Held? && r.thread in ts {
      var i :| 0 <= i < |ts| && ts[i] == r.thread;
      assert HeldRefs(ts)[i] == r;
    }
    if r.Queued? && r.mb in bs {
      var i :| 0 <= i < |bs| && bs[i] == r.mb;
      assert QueuedRefs(bs)[i] == r;
    }
  }

  lemma ListedRefs(s: State, x: Id, ts: seq<Thread>, bs: seq<Id>, r: Ref)
    requires Inv(s) && RefsKnown(s) && x in s.boxes && Lists(ts, s.pcs.Keys) && Lists(bs, s.boxes.Keys - {x})
    requires RefsOf(s, x)[r] > 0
    ensures r in HeldRefs(ts) + QueuedRefs(bs) <==> !(r.Queued? && Lost(s, x, r.mb))
  {
    hide Inv, RefsKnown, RefsOf;
    InRefs(ts, bs, r);
    KnownRef(s, x, r);
    if r.Queued? { InvRefs(s, x, r.mb); }
  }

  /**
   * In a state with every mutex free, a count is what threads hold plus what is queued, exactly if nothing was
   * lost.
   */
  lemma CountOfState(s: State, x: Id, ts: seq<Thread>, bs: seq<Id>)
    requires Inv(s) && RefsKnown(s) && x in s.boxes && (forall b :: b in s.boxes ==> s.boxes[b].owner == Free)
    requires Lists(ts, s.pcs.Keys) && Lists(bs, s.boxes.Keys - {x})
    ensures forall i :: 0 <= i < |bs| ==> bs[i] in s.boxes
    ensures s.boxes[x].count == HeldBy(s, x, ts) + QueuedIn(s, x, bs) <==> forall b :: !Lost(s, x, b)
  {
    var rs := HeldRefs(ts) + QueuedRefs(bs);
    forall i | 0 <= i < |bs|
      ensures bs[i] in s.boxes && bs[i] != x
    {
      assert bs[i] in bs;
    }
    HeldIsMultiplicity(s, x, ts);
    QueuedIsMultiplicity(s, x, bs);
    MultiplicityAppend(RefsOf(s, x), HeldRefs(ts), QueuedRefs(bs));
    InvBox(s, x);
    AllRefs(RefsOf(s, x), rs);
    forall r | r in RefsOf(s, x)
      ensures r in rs <==> !(r.Queued? && Lost(s, x, r.mb))
    {
      ListedRefs(s, x, ts, bs, r);
    }
    hide Inv, RefsKnown;
    if b :| Lost(s, x, b) {
      assert Queued(b) in RefsOf(s, x);
    }
  }

  /**
   * Over every run: with every mutex free, a mailbox's count is the number of references that threads hold
   * and messages in queues stand for, exactly if no earlier step freed a mailbox with a message from it.
   */
  lemma CountExact(run: seq<State>, actions: seq<Action>, k: nat, x: Id, ts: seq<Thread>, bs: seq<Id>)
    requires IsRun(run, actions) && k < |run| && x in run[k].boxes
    requires forall b :: b in run[k].boxes ==> run[k].boxes[b].owner == Free
    requires Lists(ts, run[k].pcs.Keys) && Lists(bs, run[k].boxes.Keys - {x})
    ensures forall i :: 0 <= i < |bs| ==> bs[i] in run[k].boxes
    ensures run[k].boxes[x].count == HeldBy(run[k], x, ts) + QueuedIn(run[k], x, bs)
       <==> forall i, b :: 0 <= i < k ==> !Discards(run[i], actions[i], x, b)
  {
    RunInv(run, actions, k);
    RunRefsKnown(run, actions, k);
    forall b
      ensures Lost(run[k], x, b) <==> DiscardedBefore(run, actions, k, x, b)
    {
      RunLoss(run, actions, k, x, b);
    }
    hide IsRun, Inv, RefsKnown, Lost, Discards;
    CountOfState(run[k], x, ts, bs);
    if i, b :| 0 <= i < k && Discards(run[i], actions[i], x, b) {
      assert DiscardedBefore(run, actions, k, x, b);
    }
  }

  // ---- a run that reaches a loss ----

  lemma Longer(run: seq<State>, actions: seq<Action>, a: Action) returns (more: seq<State>, all: seq<Action>)
    requires IsRun(run, actions) && Enabled(run[|actions|], a) && Act(run[|actions|], a).Going?
    ensures IsRun(more, all) && |run| == |actions| + 1 && more == run + [Act(run[|actions|], a).state]
    ensures all == actions + [a]
  {
    hide Enabled, Act;
    more, all := run + [Act(run[|actions|], a).state], actions + [a];
    assert more[0] == run[0];
    forall i | 0 <= i < |all|
      ensures Enabled(more[i], all[i]) && Act(more[i], all[i]) == Going(more[i + 1])
    {
      if i < |actions| { assert more[i] == run[i] && more[i + 1] == run[i + 1] && all[i] == actions[i]; }
    }
  }

  const WORD: Entry := Message(7, 20)

  /** Mailbox 10 has never been shut down or read from; 20 has no message; the only thread has a reference to each. */
  ghost predicate Pair(s: State, pc: Pc, queue: seq<Entry>, items: int, owner: Owner, count: int, senderOwner: Owner) {
    && s.boxes.Keys == {10, 20} && s.boxes[10] == Mailbox(queue, items, owner, 1, false, queue, [], {}, 0)
    && s.boxes[20] == Mailbox([], 0, senderOwner, count, false, [], [], {}, 0)
    && s.pcs.Keys == {1} && s.pcs[1] == pc
    && s.refs.Keys == {10, 20} && s.refs[10] == multiset{Held(1)} && s.refs[20][Held(1)] == 1
  }

  lemma CallStep(s: State, c: Call, q: seq<Entry>, items: int, count: int)
    requires Pair(s, Idle, q, items, Free, count, Free)
    requires (c == CallAdd(10, WORD) || c == CallUnref(10) || c == CallUnref(20))
    ensures Enabled(s, Begin(1, c)) && Act(s, Begin(1, c)).Going?
    ensures Pair(Act(s, Begin(1, c)).state, Start(c), q, items, Free, count, Free)
  {
  }

  lemma LockStep(s: State)
    requires Pair(s, AddLock(10, WORD), [], 0, Free, 1, Free)
    ensures Enabled(s, Continue(1)) && Act(s, Continue(1)).Going?
    ensures Pair(Act(s, Continue(1)).state, AddRefLock(10, 20), [WORD], 0, By(1), 1, Free)
  {
  }

  lemma CountStep(s: State)
    requires Pair(s, AddRefLock(10, 20), [WORD], 0, By(1), 1, Free)
    ensures Enabled(s, Continue(1)) && Act(s, Continue(1)).Going?
    ensures Pair(Act(s, Continue(1)).state, AddRefUnlock(10, 20), [WORD], 0, By(1), 2, By(1))
  {
  }

  lemma UnlockSenderStep(s: State)
    requires Pair(s, AddRefUnlock(10, 20), [WORD], 0, By(1), 2, By(1))
    ensures Enabled(s, Continue(1)) && Act(s, Continue(1)).Going?
    ensures Pair(Act(s, Continue(1)).state, AddPost(10), [WORD], 0, By(1), 2, Free)
  {
  }

  lemma PostedStep(s: State)
    requires Pair(s, AddPost(10), [WORD], 0, By(1), 2, Free)
    ensures Enabled(s, Continue(1)) && Act(s, Continue(1)).Going?
    ensures Pair(Act(s, Continue(1)).state, Unlock(10), [WORD], 1, By(1), 2, Free)
  {
  }

  lemma UnlockStep(s: State)
    requires Pair(s, Unlock(10), [WORD], 1, By(1), 2, Free)
    ensures Enabled(s, Continue(1)) && Act(s, Continue(1)).Going?
    ensures Pair(Act(s, Continue(1)).state, Idle, [WORD], 1, Free, 2, Free)
  {
  }

  lemma DiscardStep(s: State)
    requires Pair(s, UnrefLock(10), [WORD], 1, Free, 2, Free)
    ensures Discards(s, Continue(1), 20, 10)
    ensures var n := Act(s, Continue(1)).state;
            n.boxes.Keys == {20} && n.pcs.Keys == {1} && n.boxes[20].owner == Free && n.boxes[20].count == 2 &&
              RefsOf(n, 20)[Held(1)] == 1
  {
  }

  lemma MailboxesMade() returns (run: seq<State>, actions: seq<Action>)
    ensures IsRun(run, actions) && |run| == |actions| + 1 && Pair(run[|actions|], Idle, [], 0, Free, 1, Free)
  {
    run, actions := [Initial({1})], [];
    run, actions := Longer(run, actions, Create(1, 10));
    run, actions := Longer(run, actions, Create(1, 20));
  }

  lemma MessageSent() returns (run: seq<State>, actions: seq<Action>)
    ensures IsRun(run, actions) && |run| == |actions| + 1 && Pair(run[|actions|], Idle, [WORD], 1, Free, 2, Free)
  {
    run, actions := MailboxesMade();
    hide IsRun, Pair, Act, Enabled;
    CallStep(run[|actions|], CallAdd(10, WORD), [], 0, 1);
    run, actions := Longer(run, actions, Begin(1, CallAdd(10, WORD)));
    LockStep(run[|actions|]);
    run, actions := Longer(run, actions, Continue(1));
    CountStep(run[|actions|]);
    run, actions := Longer(run, actions, Continue(1));
    UnlockSenderStep(run[|actions|]);
    run, actions := Longer(run, actions, Continue(1));
    PostedStep(run[|actions|]);
    run, actions := Longer(run, actions, Continue(1));
    UnlockStep(run[|actions|]);
    run, actions := Longer(run, actions, Continue(1));
  }

  /**
   * With one thread and two mailboxes: 20 sends a message to 10, and the last holder of 10 gives it up.
   * Then 20 is all there is, with a count of 2 and one reference.
   */
  lemma LossIsReached() returns (run: seq<State>, actions: seq<Action>)
    ensures IsRun(run, actions) && |actions| > 0 && Discards(run[|actions| - 1], actions[|actions| - 1], 20, 10)
    ensures var s := run[|actions|];
            && s.boxes.Keys == {20} && s.pcs.Keys == {1} && s.boxes[20].owner == Free
            && s.boxes[20].count == 2 && HeldBy(s, 20, [1]) + QueuedIn(s, 20, []) == 1
  {
    run, actions := MessageSent();
    hide IsRun, Pair, Act, Enabled, Discards;
    CallStep(run[|actions|], CallUnref(10), [WORD], 1, 2);
    run, actions := Longer(run, actions, Begin(1, CallUnref(10)));
    DiscardStep(run[|actions|]);
    assert Enabled(run[|actions|], Continue(1)) && Act(run[|actions|], Continue(1)).Going? by {
      DiscardEnabled(run[|actions|], Continue(1), 20, 10);
    }
    run, actions := Longer(run, actions, Continue(1));
  }

  lemma DiscardEnabled(s: State, a: Action, x: Id, b: Id)
    requires Discards(s, a, x, b)
    ensures Enabled(s, a) && Act(s, a).Going?
  {
  }
}

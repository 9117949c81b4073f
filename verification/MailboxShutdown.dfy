/**
 * mb_shutdown and what it means for mb_next_entry (hw5/src/mailbox.c): from then on consumers get NULL, and
 * one of those that wait is let through.
 */
module MailboxShutdown {
  import opened MailboxProtocol
  import opened MailboxCounts
  import opened MailboxSenders
  import opened MailboxHistory

  // ---- what a consumer gets ----

  /** The step of a run in which a thread that got past the items semaphore takes the mutex of `b`. */
  ghost predicate Enters(run: seq<State>, actions: seq<Action>, i: nat, t: Thread, b: Id) {
    IsRun(run, actions) && i < |actions| && actions[i] == Continue(t) && t in run[i].pcs && run[i].pcs[t] == NextLock(b)
  }

  /** From a defunct mailbox nothing is taken: the consumer only releases the mutex, and returns NULL. */
  lemma DefunctGivesNull(run: seq<State>, actions: seq<Action>, i: nat, t: Thread, b: Id)
    requires Enters(run, actions, i, t, b) && b in run[i].boxes && run[i].boxes[b].defunct
    ensures b in run[i + 1].boxes && t in run[i + 1].pcs && run[i + 1].pcs[t] == Unlock(b)
    ensures run[i + 1].boxes[b].queue == run[i].boxes[b].queue
    ensures run[i + 1].boxes[b].delivered == run[i].boxes[b].delivered
  {
  }

  /**
   * From any other mailbox the consumer gets the first entry: at once, or, for a message from another mailbox,
   * after it has released the sender.
   */
  lemma OthersGiveFirst(run: seq<State>, actions: seq<Action>, i: nat, t: Thread, b: Id)
    requires Enters(run, actions, i, t, b) && b in run[i].boxes && !run[i].boxes[b].defunct
    ensures b in run[i + 1].boxes && t in run[i + 1].pcs && run[i].boxes[b].queue != []
    ensures var q, m := run[i].boxes[b].queue, run[i + 1].boxes[b];
            if q[0].Message? && q[0].from != b then
              && run[i + 1].pcs[t] == NextUnrefLock(b, q[0].from, q[0])
              && m.queue == q && m.delivered == run[i].boxes[b].delivered
            else
              && run[i + 1].pcs[t] == Unlock(b)
              && m.queue == q[1..] && m.delivered == run[i].boxes[b].delivered + [q[0]]
  {
    RunInv(run, actions, i);
    SomethingQueued(run[i], t, b);
    hide Inv;
  }

  // ---- nothing is delivered any more ----

  /** The thread has read an entry of `b` and not taken it out yet. */
  predicate HasRead(pc: Pc, b: Id) { (pc.NextUnrefLock? || pc.NextUnrefUnlock? || pc.NextDequeue?) && pc.mb == b }

  ghost predicate ReadersGone(s: State) {
    forall t, b :: t in s.pcs && b in s.boxes && s.boxes[b].defunct ==> !HasRead(s.pcs[t], b)
  }

  lemma ReadBefore(s: State, a: Action, u: Thread, b: Id)
    requires Enabled(s, a) && Act(s, a).Going? && u in Act(s, a).state.pcs && HasRead(Act(s, a).state.pcs[u], b)
    ensures u in s.pcs
    ensures HasRead(s.pcs[u], b) || (a == Continue(u) && s.pcs[u] == NextLock(b) && b in s.boxes && !s.boxes[b].defunct)
  {
    hide Unblocked, MayCall, RefsOf, Enqueued, Dequeued, CountsSender, Owns;
    if a.Continue? {
      match s.pcs[a.thread]
      case NextLock(mb) =>
      case NextUnrefLock(mb, from, e) =>
      case UnrefLock(mb) =>
      case _ =>
    }
  }

  /** Who has read holds the mutex, so that `mb_shutdown` comes before or after. */
  lemma ReadersGoneStep(s: State, a: Action, u: Thread, b: Id)
    requires Inv(s) && Counted(s) && ReadersGone(s) && Enabled(s, a) && Act(s, a).Going?
    requires u in Act(s, a).state.pcs && b in Act(s, a).state.boxes && HasRead(Act(s, a).state.pcs[u], b)
    ensures !Act(s, a).state.boxes[b].defunct
  {
    hide Inv, Act, Counted;
    ReadBefore(s, a, u, b);
    if HasRead(s.pcs[u], b) { LockIsOwner(s, u, b); }
    ActionTold(s, a, b);
  }

  lemma NoReaders(threads: set<Thread>)
    ensures ReadersGone(Initial(threads))
  {
  }

  lemma {:induction false} RunReadersGone(run: seq<State>, actions: seq<Action>, k: nat)
    requires IsRun(run, actions) && k < |run|
    ensures ReadersGone(run[k])
  {
    hide Inv, Act, Enabled, Counted, ReadersGone, Initial;
    if k == 0 {
      var threads :| run[0] == Initial(threads);
      NoReaders(threads);
    } else {
      RunReadersGone(run, actions, k - 1);
      hide IsRun;
      RunStep(run, actions, k - 1);
      ReadersGoneKept(run[k - 1], actions[k - 1]);
    }
  }

  lemma ReadersGoneKept(s: State, a: Action)
    requires Inv(s) && Counted(s) && ReadersGone(s) && Enabled(s, a) && Act(s, a).Going?
    ensures ReadersGone(Act(s, a).state)
  {
    hide Inv, Act, Enabled, Counted;
    var n := Act(s, a).state;
    forall u, b | u in n.pcs && b in n.boxes && n.boxes[b].defunct
      ensures !HasRead(n.pcs[u], b)
    {
      if HasRead(n.pcs[u], b) { ReadersGoneStep(s, a, u, b); }
    }
  }

  /** Mailboxes are not made anew. */
  lemma BoxBefore(s: State, a: Action, b: Id)
    requires Inv(s) && Enabled(s, a) && Act(s, a).Going? && b in s.used && b in Act(s, a).state.boxes
    ensures b in s.boxes
  {
    hide Inv, Act, Enabled;
    if b !in s.boxes { OnlyCreated(s, a, b); }
  }

  lemma DefunctStep(s: State, a: Action, b: Id)
    requires Inv(s) && Counted(s) && ReadersGone(s) && Enabled(s, a) && Act(s, a).Going?
    requires b in s.boxes && b in Act(s, a).state.boxes && s.boxes[b].defunct
    ensures var m, n := s.boxes[b], Act(s, a).state.boxes[b];
            n.defunct && n.delivered == m.delivered && m.queue <= n.queue
  {
    EnabledThread(s, a);
    hide Inv, Counted, Act, Enabled;
    ActionTold(s, a, b);
    assert a.Continue? ==> !HasRead(s.pcs[a.thread], b);
  }

  lemma EnabledThread(s: State, a: Action)
    requires Enabled(s, a)
    ensures a.Continue? ==> a.thread in s.pcs
  {
  }

  lemma {:induction false} StaysUsed(run: seq<State>, actions: seq<Action>, i: nat, k: nat, b: Id)
    requires IsRun(run, actions) && i <= k < |run| && b in run[i].boxes
    ensures b in run[k].used
    decreases k
  {
    hide Inv, Enabled, Act, Counted;
    if i == k {
      RunInv(run, actions, i);
      InvUsed(run[i], b);
    } else {
      StaysUsed(run, actions, i, k - 1, b);
      hide IsRun;
      RunStep(run, actions, k - 1);
      UsedGrows(run[k - 1], actions[k - 1]);
    }
  }

  /**
   * Once a mailbox is defunct, nothing more is ever delivered from it, in the rest of any run: not even a consumer
   * that was past the semaphore gets an entry, and no other can have read one already. What is added stays queued.
   */
  lemma {:induction false} DefunctDeliversNothing(run: seq<State>, actions: seq<Action>, i: nat, k: nat, b: Id)
    requires IsRun(run, actions) && i <= k < |run| && b in run[i].boxes && run[i].boxes[b].defunct && b in run[k].boxes
    ensures run[k].boxes[b].defunct && run[k].boxes[b].delivered == run[i].boxes[b].delivered
    ensures run[i].boxes[b].queue <= run[k].boxes[b].queue
    decreases k
  {
    hide Inv, Act, Enabled, Counted, ReadersGone;
    if i < k {
      StaysUsed(run, actions, i, k - 1, b);
      RunReadersGone(run, actions, k - 1);
      hide IsRun;
      RunStep(run, actions, k - 1);
      BoxBefore(run[k - 1], actions[k - 1], b);
      DefunctDeliversNothing(run, actions, i, k - 1, b);
      DefunctStep(run[k - 1], actions[k - 1], b);
      PrefixTrans(run[i].boxes[b].queue, run[k - 1].boxes[b].queue, run[k].boxes[b].queue);
    }
  }

  lemma PrefixTrans(a: seq<Entry>, b: seq<Entry>, c: seq<Entry>)
    requires a <= b && b <= c
    ensures a <= c
  {
  }

  // ---- who is let through ----

  /**
   * The post of `mb_shutdown` lets a consumer through: after it the semaphore is positive, and every thread that
   * waits on it may go on.
   */
  lemma ShutdownWakes(run: seq<State>, actions: seq<Action>, i: nat, t: Thread, u: Thread, b: Id)
    requires IsRun(run, actions) && i < |actions| && actions[i] == Continue(t) && t in run[i].pcs
    requires run[i].pcs[t] == ShutPost(b)
    ensures b in run[i].boxes && b in run[i + 1].boxes && run[i + 1].boxes[b].defunct
    ensures run[i + 1].boxes[b].items == run[i].boxes[b].items + 1 >= 1
    ensures u in run[i + 1].pcs && run[i + 1].pcs[u] == NextWait(b) ==> Enabled(run[i + 1], Continue(u))
  {
    RunInv(run, actions, i);
    InvThread(run[i], t);
    InvBox(run[i], b);
    hide Inv, BoxOk;
  }

  /** And one only: at no time have more consumers got past the semaphore than there were posts. */
  lemma OnePostOneConsumer(run: seq<State>, actions: seq<Action>, k: nat, b: Id)
    requires IsRun(run, actions) && k < |run| && b in run[k].boxes
    ensures PostsLeft(run, actions, k, b) == run[k].boxes[b].items >= 0
    ensures PostsLeft(run, actions, k, b) == 0 ==>
              forall u :: u in run[k].pcs && run[k].pcs[u] == NextWait(b) ==> !Enabled(run[k], Continue(u))
  {
    RunTold(run, actions, k, b);
    RunInv(run, actions, k);
    InvBox(run[k], b);
    hide Inv, IsRun, PostsLeft;
  }
}

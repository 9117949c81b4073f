/**
 * The senders of delivered messages: mb_next_entry of hw5/src/mailbox.c gives the reference of a message up
 * before it returns the message, so the sender lives on only if something else refers to it.
 */
module MailboxSenders {
  import opened MailboxProtocol
  import opened MailboxCounts

  // ---- a mailbox exists as long as something refers to it ----

  ghost predicate Counted(s: State) { forall b :: b in s.boxes ==> s.boxes[b].count >= 1 }

  lemma CountedStep(s: State, a: Action)
    requires Counted(s) && Enabled(s, a) && Act(s, a).Going?
    ensures Counted(Act(s, a).state)
  {
    var n := Act(s, a).state;
    hide Counted;
    forall b | b in n.boxes
      ensures n.boxes[b].count >= 1
    {
      CountAfter(s, a, b);
    }
    AllCounted(n);
  }

  lemma AllCounted(s: State)
    requires forall b :: b in s.boxes ==> s.boxes[b].count >= 1
    ensures Counted(s)
  {
  }

  /** A count changes by one, and is not left at 0. */
  lemma CountAfter(s: State, a: Action, b: Id)
    requires Counted(s) && Enabled(s, a) && Act(s, a).Going? && b in Act(s, a).state.boxes
    ensures Act(s, a).state.boxes[b].count >= 1
  {
    hide RefsOf, Unblocked, MayCall, Owns;
    if a.Continue? {
      match s.pcs[a.thread]
      case NextUnrefLock(mb, from, e) =>
      case UnrefLock(mb) =>
      case _ =>
    }
  }

  lemma {:induction false} RunCounted(run: seq<State>, actions: seq<Action>, k: nat)
    requires IsRun(run, actions) && k < |run|
    ensures Counted(run[k])
  {
    if k == 0 {
    } else {
      RunCounted(run, actions, k - 1);
      assert Act(run[k - 1], actions[k - 1]) == Going(run[k]) && Enabled(run[k - 1], actions[k - 1]);
      hide Counted, Act, Enabled;
      CountedStep(run[k - 1], actions[k - 1]);
    }
  }

  /** In every state of every run: a mailbox exists if and only if there is a reason to keep it. */
  lemma ExistsIffReferred(run: seq<State>, actions: seq<Action>, k: nat, x: Id)
    requires IsRun(run, actions) && k < |run|
    ensures x in run[k].boxes <==> exists r :: RefsOf(run[k], x)[r] > 0
  {
    RunInv(run, actions, k);
    RunCounted(run, actions, k);
    hide IsRun;
    if x in run[k].boxes {
      InvBox(run[k], x);
      SomeRef(RefsOf(run[k], x));
    }
  }

  lemma SomeRef(m: multiset<Ref>)
    requires |m| >= 1
    ensures exists r :: m[r] > 0
  {
    assert m != multiset{};
    var r :| r in m;
    assert m[r] > 0;
  }

  // ---- the sender while its message is delivered ----

  /**
   * When a consumer gives up the reference of the message it is about to return, the sender survives if and
   * only if its count is above 1, which is to say that there is another reason to keep it.
   */
  lemma SenderSurvives(run: seq<State>, actions: seq<Action>, k: nat, t: Thread)
    requires IsRun(run, actions) && k < |actions| && actions[k] == Continue(t) && t in run[k].pcs
    requires run[k].pcs[t].NextUnrefLock?
    ensures var s, x := run[k], run[k].pcs[t].from;
            && x in s.boxes
            && (x in run[k + 1].boxes <==> s.boxes[x].count > 1)
            && (x in run[k + 1].boxes <==> exists r :: (RefsOf(s, x) - multiset{Queued(s.pcs[t].mb)})[r] > 0)
  {
    var s, pc := run[k], run[k].pcs[t];
    var x, mine := pc.from, multiset{Queued(pc.mb)};
    RunInv(run, actions, k);
    RunCounted(run, actions, k);
    Releasing(run, actions, k, t);
    hide IsRun, Inv, Act, Enabled, Counted;
    SenderKept(s, t, pc.mb, x, pc.entry);
    InvBox(s, x);
    var rest := RefsOf(s, x) - mine;
    assert RefsOf(s, x) == mine + rest;
    if |rest| >= 1 { SomeRef(rest); }
    if r :| rest[r] > 0 { assert r in rest; }
  }

  lemma Releasing(run: seq<State>, actions: seq<Action>, k: nat, t: Thread)
    requires IsRun(run, actions) && k < |actions| && actions[k] == Continue(t) && t in run[k].pcs
    requires run[k].pcs[t].NextUnrefLock?
    requires Inv(run[k]) && Counted(run[k])
    ensures var s, x := run[k], run[k].pcs[t].from; x in s.boxes && (x in run[k + 1].boxes <==> s.boxes[x].count > 1)
  {
    var s, pc := run[k], run[k].pcs[t];
    assert Act(s, actions[k]) == Going(run[k + 1]);
    hide Inv, IsRun;
    SenderKept(s, t, pc.mb, pc.from, pc.entry);
    assert run[k + 1] == SenderReleased(s, t, pc.mb, pc.from, pc.entry);
    ReleasedBoxes(s, t, pc.mb, pc.from, pc.entry);
  }

  lemma ReleasedBoxes(s: State, t: Thread, mb: Id, from: Id, e: Entry)
    requires from in s.boxes && s.boxes[from].count >= 1
    ensures from in SenderReleased(s, t, mb, from, e).boxes <==> s.boxes[from].count > 1
  {
  }

  /** A message that was delivered names a sender that lives as long as some thread holds a reference to it. */
  lemma DeliveredSenderLives(run: seq<State>, actions: seq<Action>, k: nat, b: Id, e: Entry, u: Thread)
    requires IsRun(run, actions) && k < |run| && b in run[k].boxes && e in run[k].boxes[b].delivered && e.Message?
    requires Owns(run[k], u, e.from)
    ensures e.from in run[k].boxes
  {
    RunInv(run, actions, k);
    OwnedExists(run[k], u, e.from);
  }

  // ---- a run that delivers a message without its sender ----

  lemma SenderLetGo(s: State)
    requires Pair(s, UnrefLock(20), [WORD], 1, Free, 2, Free)
    ensures Enabled(s, Continue(1)) && Act(s, Continue(1)).Going?
    ensures Reading(Act(s, Continue(1)).state, Unlock(20), 1, Free, By(1), {})
  {
  }

  /**
   * Mailbox 10 holds the message from 20, which nothing else refers to; `past` is the consumer past the items
   * semaphore.
   */
  ghost predicate Reading(s: State, pc: Pc, items: int, owner: Owner, senderOwner: Owner, past: set<Thread>) {
    && s.boxes.Keys == {10, 20} && s.boxes[10] == Mailbox([WORD], items, owner, 1, false, [WORD], [], past, 0)
    && s.boxes[20] == Mailbox([], 0, senderOwner, 1, false, [], [], {}, 0)
    && s.pcs.Keys == {1} && s.pcs[1] == pc && s.refs.Keys == {10, 20} && s.refs[10] == multiset{Held(1)}
  }

  /** What is left of it once 20 is freed. */
  ghost predicate Alone(s: State, pc: Pc, queue: seq<Entry>, delivered: seq<Entry>, owner: Owner, past: set<Thread>) {
    && s.boxes.Keys == {10} && s.boxes[10] == Mailbox(queue, 0, owner, 1, false, [WORD], delivered, past, 0)
    && s.pcs.Keys == {1} && s.pcs[1] == pc
  }

  lemma SenderUnlocked(s: State)
    requires Reading(s, Unlock(20), 1, Free, By(1), {})
    ensures Enabled(s, Continue(1)) && Act(s, Continue(1)).Going?
    ensures Reading(Act(s, Continue(1)).state, Idle, 1, Free, Free, {})
  {
  }

  lemma NextCalled(s: State)
    requires Reading(s, Idle, 1, Free, Free, {})
    ensures Enabled(s, Begin(1, CallNext(10))) && Act(s, Begin(1, CallNext(10))).Going?
    ensures Reading(Act(s, Begin(1, CallNext(10))).state, NextWait(10), 1, Free, Free, {})
  {
  }

  lemma NextWaited(s: State)
    requires Reading(s, NextWait(10), 1, Free, Free, {})
    ensures Enabled(s, Continue(1)) && Act(s, Continue(1)).Going?
    ensures Reading(Act(s, Continue(1)).state, NextLock(10), 0, Free, Free, {1})
  {
  }

  lemma HeadRead(s: State)
    requires Reading(s, NextLock(10), 0, Free, Free, {1})
    ensures Enabled(s, Continue(1)) && Act(s, Continue(1)).Going?
    ensures Reading(Act(s, Continue(1)).state, NextUnrefLock(10, 20, WORD), 0, By(1), Free, {1})
  {
  }

  lemma SenderGone(s: State)
    requires Reading(s, NextUnrefLock(10, 20, WORD), 0, By(1), Free, {1})
    ensures Enabled(s, Continue(1)) && Act(s, Continue(1)).Going?
    ensures Alone(Act(s, Continue(1)).state, NextDequeue(10, 20, WORD), [WORD], [], By(1), {1})
  {
  }

  lemma HeadTaken(s: State)
    requires Alone(s, NextDequeue(10, 20, WORD), [WORD], [], By(1), {1})
    ensures Enabled(s, Continue(1)) && Act(s, Continue(1)).Going?
    ensures Alone(Act(s, Continue(1)).state, Unlock(10), [], [WORD], By(1), {})
  {
  }

  lemma ConsumerUnlocks(s: State)
    requires Alone(s, Unlock(10), [], [WORD], By(1), {})
    ensures Enabled(s, Continue(1)) && Act(s, Continue(1)).Going?
    ensures Alone(Act(s, Continue(1)).state, Idle, [], [WORD], Free, {})
  {
  }

  lemma SenderWithoutHolder() returns (run: seq<State>, actions: seq<Action>)
    ensures IsRun(run, actions) && |run| == |actions| + 1 && Reading(run[|actions|], Idle, 1, Free, Free, {})
  {
    run, actions := MessageSent();
    hide IsRun, Pair, Reading, Act, Enabled;
    CallStep(run[|actions|], CallUnref(20), [WORD], 1, 2);
    run, actions := Longer(run, actions, Begin(1, CallUnref(20)));
    SenderLetGo(run[|actions|]);
    run, actions := Longer(run, actions, Continue(1));
    SenderUnlocked(run[|actions|]);
    run, actions := Longer(run, actions, Continue(1));
  }

  /**
   * With one thread and two mailboxes: 20 sends a message to 10, its holder gives 20 up, and a consumer takes
   * the message. It gets a message whose sender has been freed.
   */
  lemma SenderFreedIsReached() returns (run: seq<State>, actions: seq<Action>)
    ensures IsRun(run, actions)
    ensures var s := run[|actions|];
            10 in s.boxes && s.boxes[10].delivered == [Message(7, 20)] && 20 !in s.boxes && s.pcs.Keys == {1} &&
              s.pcs[1] == Idle
  {
    run, actions := SenderWithoutHolder();
    hide IsRun, Reading, Act, Enabled;
    NextCalled(run[|actions|]);
    run, actions := Longer(run, actions, Begin(1, CallNext(10)));
    NextWaited(run[|actions|]);
    run, actions := Longer(run, actions, Continue(1));
    HeadRead(run[|actions|]);
    run, actions := Longer(run, actions, Continue(1));
    SenderGone(run[|actions|]);
    run, actions := Longer(run, actions, Continue(1));
    HeadTaken(run[|actions|]);
    run, actions := Longer(run, actions, Continue(1));
    ConsumerUnlocks(run[|actions|]);
    run, actions := Longer(run, actions, Continue(1));
  }
}

/**
 * What the fields of a mailbox come to over whole runs, told from the calls and from where the threads
 * stand alone (hw5/src/mailbox.c).
 */
module MailboxHistory {
  import opened MailboxProtocol
  import opened MailboxCounts
  import opened MailboxSenders

  // ---- what one action is to one mailbox ----

  /** The place a thread goes on from, Idle for actions that are no step of a call. */
  function Place(s: State, a: Action): Pc { if a.Continue? && a.thread in s.pcs then s.pcs[a.thread] else Idle }

  /** The references counted minus those given up. */
  function CountChange(pc: Pc, b: Id): int {
    if (pc.RefLock? && pc.mb == b) || (pc.AddRefLock? && pc.from == b) then 1
    else if (pc.UnrefLock? && pc.mb == b) || (pc.NextUnrefLock? && pc.from == b) then -1
    else 0
  }

  /** The posts to the items semaphore minus the waits that got through. */
  function ItemsChange(pc: Pc, b: Id): int {
    if (pc.AddPost? || pc.ShutPost?) && pc.mb == b then 1 else if pc.NextWait? && pc.mb == b then -1 else 0
  }

  function EntriesAdded(pc: Pc, b: Id): seq<Entry> { if pc.AddLock? && pc.mb == b then [pc.entry] else [] }

  /**
   * What a consumer takes out of `b`: what it read before, or the first entry if there is no sender to release
   * first.
   */
  function EntriesTaken(m: Mailbox, pc: Pc, b: Id): seq<Entry> {
    if pc.NextDequeue? && pc.mb == b then [pc.entry]
    else if pc == NextLock(b) && !m.defunct && m.queue != [] && !CountsSender(b, m.queue[0]) then [m.queue[0]]
    else []
  }

  /** The step from `pc` changes mailbox `b` by what the place says, and frees it when its count drops to 0. */
  ghost predicate Told(s: State, n: State, pc: Pc, b: Id)
    requires b in s.boxes
  {
    && (b in n.boxes <==> s.boxes[b].count + CountChange(pc, b) != 0)
    && (b in n.boxes ==>
          var m, k := s.boxes[b], n.boxes[b];
          && k.count == m.count + CountChange(pc, b) && k.items == m.items + ItemsChange(pc, b)
          && k.added == m.added + EntriesAdded(pc, b) && (k.defunct <==> m.defunct || pc == ShutLock(b))
          && k.delivered == m.delivered + EntriesTaken(m, pc, b)
          && (EntriesTaken(m, pc, b) == [] ==> k.queue == m.queue + EntriesAdded(pc, b))
          && (EntriesTaken(m, pc, b) != [] ==> m.queue != [] && k.queue == m.queue[1..]))
  }

  lemma AddingTold(s: State, t: Thread, pc: Pc, b: Id)
    requires b in s.boxes && s.boxes[b].count >= 1 && Safe(s, pc)
    requires pc.Idle? || pc.AddLock? || pc.AddRefLock? || pc.AddRefUnlock? || pc.AddPost?
    ensures Told(s, StepOf(s, t, pc), pc, b)
  {
    hide RefsOf, CountsSender;
  }

  lemma TakingTold(s: State, t: Thread, pc: Pc, b: Id)
    requires b in s.boxes && s.boxes[b].count >= 1 && Safe(s, pc)
    requires pc.NextWait? || pc.NextUnrefUnlock? || pc.NextDequeue?
    ensures Told(s, StepOf(s, t, pc), pc, b)
  {
    hide RefsOf, CountsSender;
  }

  lemma LockingTold(s: State, t: Thread, mb: Id, b: Id)
    requires b in s.boxes && s.boxes[b].count >= 1 && Safe(s, NextLock(mb))
    ensures Told(s, NextLocked(s, t, mb), NextLock(mb), b)
  {
    hide RefsOf, CountsSender;
  }

  lemma SenderTold(s: State, t: Thread, mb: Id, from: Id, e: Entry, b: Id)
    requires b in s.boxes && s.boxes[b].count >= 1 && Safe(s, NextUnrefLock(mb, from, e))
    ensures Told(s, SenderReleased(s, t, mb, from, e), NextUnrefLock(mb, from, e), b)
  {
    hide RefsOf;
  }

  lemma CallerTold(s: State, t: Thread, mb: Id, b: Id)
    requires b in s.boxes && s.boxes[b].count >= 1 && Safe(s, UnrefLock(mb))
    ensures Told(s, Unreferenced(s, t, mb), UnrefLock(mb), b)
  {
    hide RefsOf;
  }

  lemma OtherTold(s: State, t: Thread, pc: Pc, b: Id)
    requires b in s.boxes && s.boxes[b].count >= 1 && Safe(s, pc)
    requires pc.ShutLock? || pc.ShutPost? || pc.RefLock? || pc.Unlock?
    ensures Told(s, StepOf(s, t, pc), pc, b)
  {
    hide RefsOf;
  }

  lemma StepTold(s: State, t: Thread, pc: Pc, b: Id)
    requires b in s.boxes && s.boxes[b].count >= 1 && Safe(s, pc)
    ensures Told(s, StepOf(s, t, pc), pc, b)
  {
    hide Told, Safe;
    match pc
    case NextLock(mb) => LockingTold(s, t, mb, b);
    case NextUnrefLock(mb, from, e) => SenderTold(s, t, mb, from, e, b);
    case UnrefLock(mb) => CallerTold(s, t, mb, b);
    case NextWait(mb) => TakingTold(s, t, pc, b);
    case NextUnrefUnlock(mb, from, e) => TakingTold(s, t, pc, b);
    case NextDequeue(mb, from, e) => TakingTold(s, t, pc, b);
    case ShutLock(mb) => OtherTold(s, t, pc, b);
    case ShutPost(mb) => OtherTold(s, t, pc, b);
    case RefLock(mb) => OtherTold(s, t, pc, b);
    case Unlock(mb) => OtherTold(s, t, pc, b);
    case _ => AddingTold(s, t, pc, b);
  }

  lemma CallTold(s: State, a: Action, b: Id)
    requires Enabled(s, a) && !a.Continue? && b in s.boxes && b in s.used && s.boxes[b].count >= 1
    ensures Act(s, a).Going? && Told(s, Act(s, a).state, Idle, b)
  {
    hide RefsOf, MayCall, Owns;
  }

  lemma ActionTold(s: State, a: Action, b: Id)
    requires Inv(s) && Counted(s) && Enabled(s, a) && Act(s, a).Going? && b in s.boxes
    ensures Told(s, Act(s, a).state, Place(s, a), b)
  {
    InvUsed(s, b);
    hide Inv, StepOf, Safe, Told, Counted;
    if a.Continue? {
      StepTold(s, a.thread, s.pcs[a.thread], b);
    } else {
      CallTold(s, a, b);
    }
  }

  /** Nobody stands at a step that is to change a mailbox that does not exist. */
  lemma NothingToTell(s: State, a: Action, b: Id)
    requires Inv(s) && Enabled(s, a) && b !in s.boxes
    ensures var pc := Place(s, a);
            CountChange(pc, b) == 0 && ItemsChange(pc, b) == 0 && EntriesAdded(pc, b) == [] && pc != ShutLock(b)
  {
    if a.Continue? {
      InvThread(s, a.thread);
      if s.pcs[a.thread].NextUnrefLock? {
        var pc := s.pcs[a.thread];
        SenderKept(s, a.thread, pc.mb, pc.from, pc.entry);
      }
    }
    hide Inv;
  }

  /** A mailbox comes into being by `mb_init` alone: empty, not defunct, with one reference. */
  lemma OnlyCreated(s: State, a: Action, b: Id)
    requires Inv(s) && Enabled(s, a) && Act(s, a).Going? && b !in s.boxes && b in Act(s, a).state.boxes
    ensures a.Create? && a.mb == b && b !in s.used
    ensures Act(s, a).state.boxes[b] == Mailbox([], 0, Free, 1, false, [], [], {}, 0)
  {
    if a.Continue? { KeysStay(s, a.thread); }
    hide Inv, StepOf;
  }

  lemma KeysStay(s: State, t: Thread)
    requires Inv(s) && t in s.pcs && Safe(s, s.pcs[t])
    ensures StepOf(s, t, s.pcs[t]).boxes.Keys <= s.boxes.Keys
  {
    hide Inv, RefsOf, Enqueued, Dequeued, CountsSender;
    match s.pcs[t]
    case NextUnrefLock(mb, from, e) =>
    case UnrefLock(mb) =>
    case _ =>
  }

  // ---- over whole runs ----

  /** One step of a run, from a state in order. */
  lemma RunStep(run: seq<State>, actions: seq<Action>, k: nat)
    requires IsRun(run, actions) && k < |actions|
    ensures |run| == |actions| + 1 && Inv(run[k]) && Counted(run[k])
    ensures Enabled(run[k], actions[k]) && Act(run[k], actions[k]) == Going(run[k + 1])
  {
    RunInv(run, actions, k);
    RunCounted(run, actions, k);
  }

  /** References counted minus references given up, in the first `k` steps. */
  function Balance(run: seq<State>, actions: seq<Action>, k: nat, b: Id): int
    requires k <= |actions| < |run|
  {
    if k == 0 then 0 else Balance(run, actions, k - 1, b) + CountChange(Place(run[k - 1], actions[k - 1]), b)
  }

  /** Posts to the items semaphore minus waits that got through. */
  function PostsLeft(run: seq<State>, actions: seq<Action>, k: nat, b: Id): int
    requires k <= |actions| < |run|
  {
    if k == 0 then 0 else PostsLeft(run, actions, k - 1, b) + ItemsChange(Place(run[k - 1], actions[k - 1]), b)
  }

  /** The entries of the additions that got the mutex, in that order. */
  function Additions(run: seq<State>, actions: seq<Action>, k: nat, b: Id): seq<Entry>
    requires k <= |actions| < |run|
  {
    if k == 0 then [] else Additions(run, actions, k - 1, b) + EntriesAdded(Place(run[k - 1], actions[k - 1]), b)
  }

  /** Some `mb_shutdown` got the mutex. */
  predicate ShutBefore(run: seq<State>, actions: seq<Action>, k: nat, b: Id)
    requires k <= |actions| < |run|
  {
    k > 0 && (ShutBefore(run, actions, k - 1, b) || Place(run[k - 1], actions[k - 1]) == ShutLock(b))
  }

  /** The mailbox is what counting, posting, adding and shutting down so far make of it. */
  ghost predicate AsTold(s: State, b: Id, balance: int, posted: int, added: seq<Entry>, shut: bool) {
    && (b !in s.used ==> b !in s.boxes && balance == 0 && posted == 0 && added == [] && !shut)
    && (b in s.used ==> (b in s.boxes <==> 1 + balance != 0))
    && (b in s.boxes ==>
          var m := s.boxes[b];
          m.count == 1 + balance && m.items == posted && m.added == added && (m.defunct <==> shut))
  }

  lemma TellsOn(s: State, a: Action, b: Id, balance: int, posted: int, added: seq<Entry>, shut: bool)
    requires Inv(s) && Counted(s) && Enabled(s, a) && Act(s, a).Going? && AsTold(s, b, balance, posted, added, shut)
    ensures var pc := Place(s, a);
            AsTold(Act(s, a).state, b, balance + CountChange(pc, b), posted + ItemsChange(pc, b),
                   added + EntriesAdded(pc, b), shut || pc == ShutLock(b))
  {
    UsedGrows(s, a);
    InvUsed(s, b);
    hide Inv, Act, Enabled, Counted, Place, CountChange, ItemsChange, EntriesAdded;
    if b in s.boxes {
      ActionTold(s, a, b);
    } else {
      NothingToTell(s, a, b);
      if b in Act(s, a).state.boxes { OnlyCreated(s, a, b); }
    }
  }

  /**
   * Over every run, from the steps of the threads alone: a mailbox that was made exists as long as its creator's
   * reference and those counted outnumber those given up; its count is the difference, its semaphore has the posts
   * less the waits that got through, what was added are the entries of the calls in the order in which they got
   * the mutex, and it is defunct if and only if some `mb_shutdown` got the mutex.
   */
  lemma {:induction false} RunTold(run: seq<State>, actions: seq<Action>, k: nat, b: Id)
    requires IsRun(run, actions) && k < |run|
    ensures AsTold(run[k], b, Balance(run, actions, k, b), PostsLeft(run, actions, k, b),
                   Additions(run, actions, k, b), ShutBefore(run, actions, k, b))
  {
    if k == 0 {
    } else {
      RunTold(run, actions, k - 1, b);
      hide IsRun, Inv, Act, Enabled, Counted, AsTold, Place, CountChange, ItemsChange, EntriesAdded;
      RunStep(run, actions, k - 1);
      TellsOn(run[k - 1], actions[k - 1], b, Balance(run, actions, k - 1, b), PostsLeft(run, actions, k - 1, b),
              Additions(run, actions, k - 1, b), ShutBefore(run, actions, k - 1, b));
    }
  }

  // ---- the order of the semaphore operations of a call ----

  /** The first wait of a call. */
  lemma CallsBegin(run: seq<State>, actions: seq<Action>, i: nat, t: Thread, c: Call)
    requires IsRun(run, actions) && i < |actions| && actions[i] == Begin(t, c)
    ensures t in run[i + 1].pcs
    ensures run[i + 1].pcs[t] ==
            match c
            case CallAdd(b, e) => AddLock(b, e)
            case CallNext(b) => NextWait(b)
            case CallShutdown(b) => ShutLock(b)
            case CallRef(b) => RefLock(b)
            case CallUnref(b) => UnrefLock(b)
  {
  }

  /**
   * Where a thread goes on: an addition counts the sender under its mutex before it posts; a consumer that has read
   * a message releases the sender, whose mutex goes with it if that was the last reference, before it takes the
   * message out; a shutdown posts before it releases the mutex. What follows NextLock depends on the mailbox.
   */
  lemma CallsInOrder(run: seq<State>, actions: seq<Action>, i: nat, t: Thread)
    requires IsRun(run, actions) && i < |actions| && actions[i] == Continue(t) && t in run[i].pcs
    requires !run[i].pcs[t].NextLock?
    ensures t in run[i + 1].pcs
    ensures var s, next := run[i], run[i + 1].pcs[t];
            match s.pcs[t]
            case Idle => false
            case AddLock(b, e) => next == if e.Message? && e.from != b then AddRefLock(b, e.from) else AddPost(b)
            case AddRefLock(b, x) => next == AddRefUnlock(b, x)
            case AddRefUnlock(b, x) => next == AddPost(b)
            case AddPost(b) => next == Unlock(b)
            case NextWait(b) => next == NextLock(b)
            case NextLock(b) => false
            case NextUnrefLock(b, x, e) =>
              x in s.boxes && next == if s.boxes[x].count == 1 then NextDequeue(b, x, e) else NextUnrefUnlock(b, x, e)
            case NextUnrefUnlock(b, x, e) => next == NextDequeue(b, x, e)
            case NextDequeue(b, x, e) => next == Unlock(b)
            case ShutLock(b) => next == ShutPost(b)
            case ShutPost(b) => next == Unlock(b)
            case RefLock(b) => next == Unlock(b)
            case UnrefLock(b) => b in s.boxes && next == if s.boxes[b].count == 1 then Idle else Unlock(b)
            case Unlock(b) => next == Idle
  {
    var s := run[i];
    assert Enabled(s, actions[i]) && Act(s, actions[i]) == Going(run[i + 1]);
    assert run[i + 1] == StepOf(s, t, s.pcs[t]);
    hide RefsOf, Enqueued, Dequeued;
  }

  lemma StepOfOther(s: State, t: Thread, pc: Pc, u: Thread)
    requires Safe(s, pc) && u in s.pcs && u != t
    ensures var n := StepOf(s, t, pc); u in n.pcs && n.pcs[u] == s.pcs[u]
  {
    hide RefsOf, Enqueued, Dequeued, CountsSender;
  }

  /** A thread moves by its own actions only. */
  lemma OthersStand(run: seq<State>, actions: seq<Action>, i: nat, u: Thread)
    requires IsRun(run, actions) && i < |actions| && u in run[i].pcs && actions[i].thread != u
    ensures u in run[i + 1].pcs && run[i + 1].pcs[u] == run[i].pcs[u]
  {
    var s, a := run[i], actions[i];
    assert Enabled(s, a) && Act(s, a) == Going(run[i + 1]);
    hide IsRun, RefsOf, StepOf, Safe, MayCall, Unblocked, Owns;
    if a.Continue? { StepOfOther(s, a.thread, s.pcs[a.thread], u); }
  }
}

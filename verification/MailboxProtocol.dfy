/**
 * The mailboxes of hw5/src/mailbox.c shared by any number of threads. Every operation is a sequence
 * of steps, one for each wait on or post to a semaphore, and the steps of different threads
 * interleave freely. Work on a queue happens in the step that takes the mailbox's mutex, or between
 * two steps of the thread that holds it.
 */
module MailboxProtocol {
  type Thread = int

  /** A mailbox; a mailbox made after another was freed counts as a new one, wherever it lies. */
  type Id = int

  datatype Entry = Message(id: int, from: Id) | Notice(id: int)

  datatype Owner = Free | By(thread: Thread)

  /** A reason for a mailbox to be kept: a thread's own reference, or a message from it in another mailbox. */
  datatype Ref = Held(thread: Thread) | Queued(mb: Id)

  /**
   * A mailbox. The last four fields only record history: entries in the order of their addition and
   * of their delivery, the threads past the items semaphore that have not dequeued yet, and the posts
   * of shutdowns not yet consumed by a NULL result.
   */
  datatype Mailbox = Mailbox(queue: seq<Entry>, items: int, owner: Owner, count: int, defunct: bool,
                             added: seq<Entry>, delivered: seq<Entry>, past: set<Thread>, alarms: int)

  /**
   * Where a thread stands: named after the semaphore operation that comes next. `entry` is what the
   * thread is about to add, or what it read at the head of the queue and will return.
   */
  datatype Pc =
    | Idle
    | AddLock(mb: Id, entry: Entry)
    | AddRefLock(mb: Id, from: Id)
    | AddRefUnlock(mb: Id, from: Id)
    | AddPost(mb: Id)
    | NextWait(mb: Id)
    | NextLock(mb: Id)
    | NextUnrefLock(mb: Id, from: Id, entry: Entry)
    | NextUnrefUnlock(mb: Id, from: Id, entry: Entry)
    | NextDequeue(mb: Id, from: Id, entry: Entry)
    | ShutLock(mb: Id)
    | ShutPost(mb: Id)
    | RefLock(mb: Id)
    | UnrefLock(mb: Id)
    | Unlock(mb: Id)

  /** `refs` names the reasons that the count of each mailbox stands for; `used` are all mailboxes ever made. */
  datatype State = State(boxes: map<Id, Mailbox>, pcs: map<Thread, Pc>, refs: map<Id, multiset<Ref>>, used: set<Id>)

  // ---- steps ----

  datatype Call =
    | CallAdd(mb: Id, entry: Entry)
    | CallNext(mb: Id)
    | CallShutdown(mb: Id)
    | CallRef(mb: Id)
    | CallUnref(mb: Id)

  datatype Action =
    | Create(thread: Thread, mb: Id)
    | Give(thread: Thread, other: Thread, mb: Id)
    | Begin(thread: Thread, call: Call)
    | Continue(thread: Thread)

  /** The thread has a reference of its own. */
  predicate Owns(s: State, t: Thread, b: Id) { b in s.refs && s.refs[b][Held(t)] >= 1 }


  /** A mailbox other than the one a message is in counts the message. */
  predicate CountsSender(mb: Id, e: Entry) { e.Message? && e.from != mb }

  /** Callers only pass on mailboxes they have a reference to. */
  predicate MayCall(s: State, t: Thread, c: Call) {
    Owns(s, t, c.mb) && (c.CallAdd? && c.entry.Message? ==> Owns(s, t, c.entry.from))
  }

  function Start(c: Call): Pc {
    match c
    case CallAdd(mb, e) => AddLock(mb, e)
    case CallNext(mb) => NextWait(mb)
    case CallShutdown(mb) => ShutLock(mb)
    case CallRef(mb) => RefLock(mb)
    case CallUnref(mb) => UnrefLock(mb)
  }

  /** The mailbox whose mutex the thread waits for, if any. */
  function WaitsFor(pc: Pc): set<Id> {
    match pc
    case AddLock(mb, _) => {mb}
    case AddRefLock(_, from) => {from}
    case NextLock(mb) => {mb}
    case NextUnrefLock(_, from, _) => {from}
    case ShutLock(mb) => {mb}
    case RefLock(mb) => {mb}
    case UnrefLock(mb) => {mb}
    case _ => {}
  }

  /** The mailboxes whose mutex the thread holds. */
  function Locks(pc: Pc): set<Id> {
    match pc
    case AddRefLock(mb, _) => {mb}
    case AddRefUnlock(mb, from) => {mb, from}
    case AddPost(mb) => {mb}
    case NextUnrefLock(mb, _, _) => {mb}
    case NextUnrefUnlock(mb, from, _) => {mb, from}
    case NextDequeue(mb, _, _) => {mb}
    case ShutPost(mb) => {mb}
    case Unlock(mb) => {mb}
    case _ => {}
  }

  /** The mailboxes whose memory the next step touches. */
  function Touches(pc: Pc): set<Id> { WaitsFor(pc) + Locks(pc) + (if pc.NextWait? then {pc.mb} else {}) }

  /** A thread at a wait goes on only if the semaphore lets it. */
  predicate Unblocked(s: State, pc: Pc) {
    && (forall b :: b in WaitsFor(pc) && b in s.boxes ==> s.boxes[b].owner == Free)
    && (pc.NextWait? && pc.mb in s.boxes ==> s.boxes[pc.mb].items > 0)
  }

  /** No step of the source is taken on freed memory, or takes the first node of an empty queue. */
  predicate Safe(s: State, pc: Pc) {
    && Touches(pc) <= s.boxes.Keys
    && (pc.NextLock? && !s.boxes[pc.mb].defunct ==> s.boxes[pc.mb].queue != [])
    && (pc.NextDequeue? ==> s.boxes[pc.mb].queue != [])
  }

  predicate Enabled(s: State, a: Action) {
    match a
    case Create(t, b) => t in s.pcs && s.pcs[t] == Idle && b !in s.used
    case Give(t, u, b) => t in s.pcs && u in s.pcs && s.pcs[t] == Idle && Owns(s, t, b)
    case Begin(t, c) => t in s.pcs && s.pcs[t] == Idle && MayCall(s, t, c)
    case Continue(t) => t in s.pcs && s.pcs[t] != Idle && Unblocked(s, s.pcs[t])
  }

  // ---- changes of one mailbox, and of the reasons to keep one ----

  function WithBox(s: State, b: Id, m: Mailbox): State { s.(boxes := s.boxes[b := m]) }

  function At(s: State, t: Thread, pc: Pc): State { s.(pcs := s.pcs[t := pc]) }

  function RefsOf(s: State, b: Id): multiset<Ref> { if b in s.refs then s.refs[b] else multiset{} }

  function WithRef(s: State, b: Id, r: Ref): State { s.(refs := s.refs[b := RefsOf(s, b) + multiset{r}]) }

  function WithoutRef(s: State, b: Id, r: Ref): State { s.(refs := s.refs[b := RefsOf(s, b) - multiset{r}]) }

  /** `sem_wait(&mb->mutex)` and what is done to the queue before the next semaphore operation. */
  function Enqueued(m: Mailbox, t: Thread, e: Entry): Mailbox {
    m.(owner := By(t), queue := m.queue + [e], added := m.added + [e])
  }

  /** Whatever is first in the queue is taken out; what is delivered is the entry the thread read before. */
  function Dequeued(m: Mailbox, t: Thread, e: Entry): Mailbox
    requires m.queue != []
  {
    m.(queue := m.queue[1..], delivered := m.delivered + [e], past := m.past - {t})
  }

  /** Finalization: the mailbox is freed, with what is in its queue. */
  function Freed(s: State, b: Id): State { s.(boxes := s.boxes - {b}, refs := s.refs - {b}) }

  /** The mutex is taken and the entry goes to the end of the queue. */
  function AddLocked(s: State, t: Thread, mb: Id, e: Entry): State
    requires mb in s.boxes
  {
    var next := if CountsSender(mb, e) then AddRefLock(mb, e.from) else AddPost(mb);
    At(WithBox(s, mb, Enqueued(s.boxes[mb], t, e)), t, next)
  }

  /** The sender is counted, under its own mutex. */
  function SenderCounted(s: State, t: Thread, mb: Id, from: Id): State
    requires from in s.boxes
  {
    var m := s.boxes[from];
    At(WithRef(WithBox(s, from, m.(owner := By(t), count := m.count + 1)), from, Queued(mb)), t, AddRefUnlock(mb, from))
  }

  function Released(s: State, t: Thread, b: Id, pc: Pc): State
    requires b in s.boxes
  {
    At(WithBox(s, b, s.boxes[b].(owner := Free)), t, pc)
  }

  function Posted(s: State, t: Thread, mb: Id): State
    requires mb in s.boxes
  {
    At(WithBox(s, mb, s.boxes[mb].(items := s.boxes[mb].items + 1)), t, Unlock(mb))
  }

  function ItemsTaken(s: State, t: Thread, mb: Id): State
    requires mb in s.boxes
  {
    var m := s.boxes[mb];
    At(WithBox(s, mb, m.(items := m.items - 1, past := m.past + {t})), t, NextLock(mb))
  }

  /**
   * NULL for a defunct mailbox; else the first node is read, and taken out unless its sender has to be
   * released first.
   */
  function NextLocked(s: State, t: Thread, mb: Id): State
    requires mb in s.boxes && (!s.boxes[mb].defunct ==> s.boxes[mb].queue != [])
  {
    var m := s.boxes[mb].(owner := By(t));
    if m.defunct then At(WithBox(s, mb, m.(past := m.past - {t}, alarms := m.alarms - 1)), t, Unlock(mb))
    else if CountsSender(mb, m.queue[0]) then At(WithBox(s, mb, m), t, NextUnrefLock(mb, m.queue[0].from, m.queue[0]))
    else At(WithBox(s, mb, Dequeued(m, t, m.queue[0])), t, Unlock(mb))
  }

  /** One reference less, with the mutex held. */
  function GivenUp(s: State, t: Thread, b: Id, r: Ref, pc: Pc): State
    requires b in s.boxes
  {
    var m := s.boxes[b];
    At(WithoutRef(WithBox(s, b, m.(owner := By(t), count := m.count - 1)), b, r), t, pc)
  }

  /** The reference of the message is given up, before the message leaves the queue. */
  function SenderReleased(s: State, t: Thread, mb: Id, from: Id, e: Entry): State
    requires from in s.boxes
  {
    if s.boxes[from].count - 1 != 0 then GivenUp(s, t, from, Queued(mb), NextUnrefUnlock(mb, from, e))
    else Freed(GivenUp(s, t, from, Queued(mb), NextDequeue(mb, from, e)), from)
  }

  function TakenOut(s: State, t: Thread, mb: Id, e: Entry): State
    requires mb in s.boxes && s.boxes[mb].queue != []
  {
    At(WithBox(s, mb, Dequeued(s.boxes[mb], t, e)), t, Unlock(mb))
  }

  function ShutLocked(s: State, t: Thread, mb: Id): State
    requires mb in s.boxes
  {
    At(WithBox(s, mb, s.boxes[mb].(owner := By(t), defunct := true)), t, ShutPost(mb))
  }

  function ShutPosted(s: State, t: Thread, mb: Id): State
    requires mb in s.boxes
  {
    var m := s.boxes[mb];
    At(WithBox(s, mb, m.(items := m.items + 1, alarms := m.alarms + 1)), t, Unlock(mb))
  }

  function Referenced(s: State, t: Thread, mb: Id): State
    requires mb in s.boxes
  {
    var m := s.boxes[mb];
    At(WithRef(WithBox(s, mb, m.(owner := By(t), count := m.count + 1)), mb, Held(t)), t, Unlock(mb))
  }

  /** The thread gives up its reference; the last one frees the mailbox, mutex and all. */
  function Unreferenced(s: State, t: Thread, mb: Id): State
    requires mb in s.boxes
  {
    if s.boxes[mb].count - 1 != 0 then GivenUp(s, t, mb, Held(t), Unlock(mb))
    else Freed(GivenUp(s, t, mb, Held(t), Idle), mb)
  }

  /** The next step of a thread. */
  function StepOf(s: State, t: Thread, pc: Pc): State
    requires Safe(s, pc)
  {
    match pc
    case Idle => s
    case AddLock(mb, e) => AddLocked(s, t, mb, e)
    case AddRefLock(mb, from) => SenderCounted(s, t, mb, from)
    case AddRefUnlock(mb, from) => Released(s, t, from, AddPost(mb))
    case AddPost(mb) => Posted(s, t, mb)
    case NextWait(mb) => ItemsTaken(s, t, mb)
    case NextLock(mb) => NextLocked(s, t, mb)
    case NextUnrefLock(mb, from, e) => SenderReleased(s, t, mb, from, e)
    case NextUnrefUnlock(mb, from, e) => Released(s, t, from, NextDequeue(mb, from, e))
    case NextDequeue(mb, _, e) => TakenOut(s, t, mb, e)
    case ShutLock(mb) => ShutLocked(s, t, mb)
    case ShutPost(mb) => ShutPosted(s, t, mb)
    case RefLock(mb) => Referenced(s, t, mb)
    case UnrefLock(mb) => Unreferenced(s, t, mb)
    case Unlock(mb) => Released(s, t, mb, Idle)
  }

  /** A new mailbox comes with one reference, its creator's. */
  function Created(s: State, t: Thread, b: Id): State {
    s.(boxes := s.boxes[b := Mailbox([], 0, Free, 1, false, [], [], {}, 0)],
       refs := s.refs[b := multiset{Held(t)}],
       used := s.used + {b})
  }

  /** A thread hands its reference on to another. */
  function Given(s: State, t: Thread, u: Thread, b: Id): State { WithRef(WithoutRef(s, b, Held(t)), b, Held(u)) }

  /** One action of one thread; Crashed if the source would touch freed memory or take from an empty queue. */
  datatype Outcome = Crashed | Going(state: State)

  function Act(s: State, a: Action): Outcome
    requires Enabled(s, a)
  {
    match a
    case Create(t, b) => Going(Created(s, t, b))
    case Give(t, u, b) => Going(Given(s, t, u, b))
    case Begin(t, c) => Going(At(s, t, Start(c)))
    case Continue(t) => if Safe(s, s.pcs[t]) then Going(StepOf(s, t, s.pcs[t])) else Crashed
  }

  // ---- the invariant ----

  /** The number of messages from `x`. */
  function From(q: seq<Entry>, x: Id): nat {
    if q == [] then 0 else (if q[0].Message? && q[0].from == x then 1 else 0) + From(q[1..], x)
  }

  lemma {:induction false} FromAppend(q: seq<Entry>, e: Entry, x: Id)
    ensures From(q + [e], x) == From(q, x) + From([e], x)
  {
    if q != [] {
      assert (q + [e])[1..] == q[1..] + [e];
      FromAppend(q[1..], e, x);
    } else {
      assert q + [e] == [e];
    }
  }

  /** The mailboxes a thread must have references of its own to. */
  function Needs(pc: Pc): set<Id> {
    match pc
    case Idle => {}
    case AddLock(mb, e) => if e.Message? then {mb, e.from} else {mb}
    case AddRefLock(mb, from) => {mb, from}
    case Unlock(_) => {}
    case _ => {pc.mb}
  }

  /** Past the items semaphore of `b`, with nothing taken from its queue yet. */
  predicate IsPast(pc: Pc, b: Id) {
    (pc.NextLock? || pc.NextUnrefLock? || pc.NextUnrefUnlock? || pc.NextDequeue?) && pc.mb == b
  }

  /** Adding to `b`, with the new entry in the queue and not posted yet. */
  predicate Unposted(pc: Pc, b: Id) { (pc.AddRefLock? || pc.AddRefUnlock? || pc.AddPost?) && pc.mb == b }

  /** One message from `x` in the queue of `b` is not counted: not yet, or no longer. */
  predicate Uncounted(pc: Pc, b: Id, x: Id) {
    (pc.AddRefLock? || pc.NextUnrefUnlock? || pc.NextDequeue?) && pc.mb == b && pc.from == x
  }

  function OwnerPc(s: State, b: Id): Pc
    requires b in s.boxes
  {
    var o := s.boxes[b].owner;
    if o.By? && o.thread in s.pcs then s.pcs[o.thread] else Idle
  }

  ghost predicate ThreadOk(s: State, t: Thread)
    requires t in s.pcs
  {
    var pc := s.pcs[t];
    && (forall b :: b in Locks(pc) ==> b in s.boxes && s.boxes[b].owner == By(t))
    && (forall b :: b in Needs(pc) ==> b in s.boxes && Owns(s, t, b))
    && (forall b :: IsPast(pc, b) ==> b in s.boxes && t in s.boxes[b].past)
    && (pc.AddRefLock? || pc.AddRefUnlock? ==> pc.from != pc.mb)
    && (pc.ShutPost? ==> pc.mb in s.boxes && s.boxes[pc.mb].defunct)
    && (pc.NextUnrefLock? || pc.NextUnrefUnlock? || pc.NextDequeue? ==>
          && pc.from != pc.mb && pc.from in s.used && pc.mb in s.boxes
          && s.boxes[pc.mb].queue != [] && s.boxes[pc.mb].queue[0] == pc.entry && CountsSender(pc.mb, pc.entry) &&
             pc.entry.from == pc.from)
  }

  /** What holds of one mailbox: the meaning of its count and of its semaphore, and first in, first out. */
  ghost predicate BoxOk(s: State, b: Id)
    requires b in s.boxes
  {
    var m := s.boxes[b];
    && m.count == |RefsOf(s, b)|
    && m.items >= 0 && m.items + |m.past| + (if Unposted(OwnerPc(s, b), b) then 1 else 0) == |m.queue| + m.alarms
    && (!m.defunct ==> m.alarms == 0)
    && m.delivered + m.queue == m.added
    && (m.owner.By? ==> m.owner.thread in s.pcs && b in Locks(s.pcs[m.owner.thread]))
    && (forall t :: t in m.past ==> t in s.pcs && IsPast(s.pcs[t], b))
  }

  /** The references that messages from `x` in mailbox `b` stand for. */
  ghost predicate SendersOk(s: State, b: Id, x: Id)
    requires b in s.boxes
  {
    x != b ==> RefsOf(s, x)[Queued(b)] + (if Uncounted(OwnerPc(s, b), b, x) then 1 else 0) == From(s.boxes[b].queue, x)
  }

  ghost predicate Inv(s: State) {
    && s.refs.Keys == s.boxes.Keys && s.boxes.Keys <= s.used
    && (forall t :: t in s.pcs ==> ThreadOk(s, t))
    && (forall b :: b in s.boxes ==> BoxOk(s, b))
    && (forall b, x :: b in s.boxes ==> SendersOk(s, b, x))
    && (forall b, x :: b in s.refs && s.refs[b][Queued(x)] > 0 ==> x in s.used)
  }

  lemma InvThread(s: State, t: Thread)
    requires Inv(s) && t in s.pcs
    ensures ThreadOk(s, t)
    ensures forall b :: b in Needs(s.pcs[t]) + Locks(s.pcs[t]) ==> b in s.boxes
  {
  }

  lemma InvBox(s: State, b: Id)
    requires Inv(s) && b in s.boxes
    ensures BoxOk(s, b) && b in s.used && b in s.refs
    ensures forall x :: RefsOf(s, b)[Queued(x)] > 0 ==> x in s.used
  {
  }

  lemma InvSenders(s: State, b: Id, x: Id)
    requires Inv(s) && b in s.boxes
    ensures SendersOk(s, b, x) && (RefsOf(s, x)[Queued(b)] > 0 ==> x in s.boxes)
  {
  }

  // ---- what a step leaves alone ----

  /** Only thread `t` moved and only mailbox `b` changed, with no other thread's reference to it. */
  ghost predicate Framed(s: State, n: State, t: Thread, b: Id) {
    && t in s.pcs && b in s.boxes && n.used == s.used
    && n.pcs.Keys == s.pcs.Keys && (forall u :: u in s.pcs && u != t ==> n.pcs[u] == s.pcs[u])
    && n.boxes.Keys == s.boxes.Keys && (forall c :: c in s.boxes && c != b ==> n.boxes[c] == s.boxes[c])
    && n.refs.Keys == s.refs.Keys && (forall y :: y != b ==> RefsOf(n, y) == RefsOf(s, y))
    && (forall u :: u != t ==> RefsOf(n, b)[Held(u)] == RefsOf(s, b)[Held(u)])
    && (s.boxes[b].owner == Free || s.boxes[b].owner == By(t) ||
       (n.boxes[b].owner == s.boxes[b].owner && n.boxes[b].queue == s.boxes[b].queue))
    && (forall u :: u != t ==> (u in n.boxes[b].past <==> u in s.boxes[b].past))
    && (s.boxes[b].defunct ==> n.boxes[b].defunct)
  }

  lemma OtherThread(s: State, n: State, t: Thread, b: Id, u: Thread)
    requires Framed(s, n, t, b) && u in s.pcs && u != t && ThreadOk(s, u)
    ensures ThreadOk(n, u)
  {
    var pc := s.pcs[u];
    forall c | c in Needs(pc)
      ensures c in n.boxes && Owns(n, u, c)
    {
      assert Owns(s, u, c);
      assert RefsOf(n, c)[Held(u)] == RefsOf(s, c)[Held(u)];
    }
  }

  /** Thread `t` stands to mailbox `c` as before. */
  predicate SameStand(before: Pc, after: Pc, c: Id) {
    && (c in Locks(before) <==> c in Locks(after)) && (Unposted(before, c) <==> Unposted(after, c)) &&
       (IsPast(before, c) <==> IsPast(after, c))
  }

  lemma OtherBox(s: State, n: State, t: Thread, b: Id, c: Id)
    requires Framed(s, n, t, b) && c in s.boxes && c != b && BoxOk(s, c) && SameStand(s.pcs[t], n.pcs[t], c)
    ensures BoxOk(n, c)
  {
    assert Unposted(OwnerPc(n, c), c) <==> Unposted(OwnerPc(s, c), c);
  }

  /** The pairs of mailboxes whose account a step may change. */
  ghost predicate Affected(s: State, n: State, t: Thread, b: Id, c: Id, x: Id)
    requires t in s.pcs && t in n.pcs
  {
    c == b || x == b || (Uncounted(s.pcs[t], c, x) != Uncounted(n.pcs[t], c, x))
  }

  lemma OtherSenders(s: State, n: State, t: Thread, b: Id, c: Id, x: Id)
    requires Framed(s, n, t, b) && c in s.boxes && SendersOk(s, c, x) && !Affected(s, n, t, b, c, x)
    ensures SendersOk(n, c, x)
  {
  }

  /** The step looks after the thread that takes it and the mailbox it changes. */
  ghost predicate Local(s: State, n: State, t: Thread, b: Id) {
    && Framed(s, n, t, b) && t in n.pcs && ThreadOk(n, t) && b in n.boxes && BoxOk(n, b)
    && (forall c :: c in s.boxes && c != b ==> SameStand(s.pcs[t], n.pcs[t], c))
    && (forall x :: RefsOf(n, b)[Queued(x)] > 0 ==> x in s.used)
  }

  /** With the accounts it affects in order as well, it keeps the invariant. */
  lemma StepKeeps(s: State, n: State, t: Thread, b: Id)
    requires Inv(s) && t in s.pcs && Local(s, n, t, b)
    requires forall c, x :: c in n.boxes && Affected(s, n, t, b, c, x) ==> SendersOk(n, c, x)
    ensures Inv(n)
  {
    forall u | u in n.pcs
      ensures ThreadOk(n, u)
    {
      if u != t { OtherThread(s, n, t, b, u); }
    }
    forall c | c in n.boxes
      ensures BoxOk(n, c)
    {
      if c != b { OtherBox(s, n, t, b, c); }
    }
    forall c, x | c in n.boxes
      ensures SendersOk(n, c, x)
    {
      if !Affected(s, n, t, b, c, x) { OtherSenders(s, n, t, b, c, x); }
    }
    forall c, x | c in n.refs && n.refs[c][Queued(x)] > 0
      ensures x in n.used
    {
      assert RefsOf(n, c)[Queued(x)] > 0;
      InvRefs(s, c, x);
    }
  }

  lemma InvRefs(s: State, c: Id, x: Id)
    requires Inv(s)
    ensures RefsOf(s, c)[Queued(x)] > 0 ==> x in s.used
  {
  }

  // ---- the steps ----

  lemma AddLockStep(s: State, t: Thread, mb: Id, e: Entry)
    requires Inv(s) && t in s.pcs && s.pcs[t] == AddLock(mb, e)
    ensures mb in s.boxes && (s.boxes[mb].owner == Free ==> Inv(AddLocked(s, t, mb, e)))
  {
    hide Inv, Local, From, SendersOk;
    InvThread(s, t);
    if s.boxes[mb].owner == Free {
      var n := AddLocked(s, t, mb, e);
      AddLockLocal(s, t, mb, e);
      forall c, x | c in n.boxes && Affected(s, n, t, mb, c, x)
        ensures SendersOk(n, c, x)
      {
        AddLockSenders(s, t, mb, e, c, x);
      }
      hide AddLocked;
      StepKeeps(s, n, t, mb);
    }
  }

  lemma AddLockLocal(s: State, t: Thread, mb: Id, e: Entry)
    requires Inv(s) && t in s.pcs && s.pcs[t] == AddLock(mb, e) && mb in s.boxes && s.boxes[mb].owner == Free
    ensures Local(s, AddLocked(s, t, mb, e), t, mb)
  {
    hide Inv, From, Framed, BoxOk, ThreadOk;
    InvBox(s, mb);
    AddLockFramed(s, t, mb, e);
    AddLockBox(s, t, mb, e);
    AddLockThread(s, t, mb, e);
  }

  lemma AddLockThread(s: State, t: Thread, mb: Id, e: Entry)
    requires Inv(s) && t in s.pcs && s.pcs[t] == AddLock(mb, e) && mb in s.boxes && s.boxes[mb].owner == Free
    ensures ThreadOk(AddLocked(s, t, mb, e), t)
  {
    hide Inv;
    InvThread(s, t);
  }

  lemma AddLockFramed(s: State, t: Thread, mb: Id, e: Entry)
    requires t in s.pcs && mb in s.boxes && s.boxes[mb].owner == Free
    ensures Framed(s, AddLocked(s, t, mb, e), t, mb)
  {
  }

  lemma AddLockBox(s: State, t: Thread, mb: Id, e: Entry)
    requires Inv(s) && t in s.pcs && s.pcs[t] == AddLock(mb, e) && mb in s.boxes && s.boxes[mb].owner == Free
    ensures BoxOk(AddLocked(s, t, mb, e), mb)
  {
    hide Inv, From;
    InvBox(s, mb);
  }

  lemma AddLockSenders(s: State, t: Thread, mb: Id, e: Entry, c: Id, x: Id)
    requires Inv(s) && t in s.pcs && s.pcs[t] == AddLock(mb, e) && mb in s.boxes && s.boxes[mb].owner == Free
    requires c in s.boxes
    ensures SendersOk(AddLocked(s, t, mb, e), c, x)
  {
    hide Inv;
    InvSenders(s, c, x);
    InvBox(s, c);
    if c == mb { FromAppend(s.boxes[mb].queue, e, x); }
  }

  /** Accounts in which neither the queue, nor the references, nor the uncounted message changed. */
  lemma SendersStay(s: State, n: State, c: Id, x: Id)
    requires Inv(s) && c in s.boxes && c in n.boxes && n.boxes[c].queue == s.boxes[c].queue
    requires RefsOf(n, x)[Queued(c)] == RefsOf(s, x)[Queued(c)]
    requires Uncounted(OwnerPc(n, c), c, x) == Uncounted(OwnerPc(s, c), c, x)
    ensures SendersOk(n, c, x)
  {
    hide Inv;
    InvSenders(s, c, x);
  }

  lemma SenderCountedStep(s: State, t: Thread, mb: Id, from: Id)
    requires Inv(s) && t in s.pcs && s.pcs[t] == AddRefLock(mb, from)
    ensures from in s.boxes && mb in s.boxes && (s.boxes[from].owner == Free ==> Inv(SenderCounted(s, t, mb, from)))
  {
    hide Inv, Local, From, SendersOk;
    InvThread(s, t);
    if s.boxes[from].owner == Free {
      var n := SenderCounted(s, t, mb, from);
      SenderCountedLocal(s, t, mb, from);
      forall c, x | c in n.boxes && Affected(s, n, t, from, c, x)
        ensures SendersOk(n, c, x)
      {
        SenderCountedSenders(s, t, mb, from, c, x);
      }
      hide SenderCounted;
      StepKeeps(s, n, t, from);
    }
  }

  lemma SenderCountedLocal(s: State, t: Thread, mb: Id, from: Id)
    requires Inv(s) && t in s.pcs && s.pcs[t] == AddRefLock(mb, from) && from in s.boxes && s.boxes[from].owner == Free
    ensures Local(s, SenderCounted(s, t, mb, from), t, from)
  {
    hide Inv, From, BoxOk, Framed;
    InvThread(s, t);
    InvBox(s, from);
    InvBox(s, mb);
    SenderCountedBox(s, t, mb, from);
    SenderCountedFramed(s, t, mb, from);
  }

  lemma SenderCountedFramed(s: State, t: Thread, mb: Id, from: Id)
    requires Inv(s) && t in s.pcs && s.pcs[t] == AddRefLock(mb, from) && from in s.boxes && s.boxes[from].owner == Free
    ensures Framed(s, SenderCounted(s, t, mb, from), t, from)
  {
    hide Inv;
    InvBox(s, from);
  }

  lemma SenderCountedBox(s: State, t: Thread, mb: Id, from: Id)
    requires Inv(s) && t in s.pcs && s.pcs[t] == AddRefLock(mb, from) && from in s.boxes && s.boxes[from].owner == Free
    ensures BoxOk(SenderCounted(s, t, mb, from), from)
  {
    hide Inv, From;
    InvThread(s, t);
    InvBox(s, from);
  }

  lemma SenderCountedSenders(s: State, t: Thread, mb: Id, from: Id, c: Id, x: Id)
    requires Inv(s) && t in s.pcs && s.pcs[t] == AddRefLock(mb, from) && from in s.boxes && s.boxes[from].owner == Free
    requires c in s.boxes
    ensures SendersOk(SenderCounted(s, t, mb, from), c, x)
  {
    SenderCountedRefs(s, t, mb, from, c, x);
    SenderCountedOwner(s, t, mb, from, c, x);
    InvSenders(s, c, x);
    hide Inv, From, RefsOf, OwnerPc, Uncounted;
  }

  lemma SenderCountedRefs(s: State, t: Thread, mb: Id, from: Id, c: Id, x: Id)
    requires from in s.boxes
    ensures RefsOf(SenderCounted(s, t, mb, from), x)[Queued(c)] ==
            RefsOf(s, x)[Queued(c)] + (if x == from && c == mb then 1 else 0)
  {
  }

  lemma SenderCountedOwner(s: State, t: Thread, mb: Id, from: Id, c: Id, x: Id)
    requires Inv(s) && t in s.pcs && s.pcs[t] == AddRefLock(mb, from) && from in s.boxes && s.boxes[from].owner == Free
    requires c in s.boxes
    ensures Uncounted(OwnerPc(s, c), c, x) <==>
            Uncounted(OwnerPc(SenderCounted(s, t, mb, from), c), c, x) || (x == from && c == mb)
    ensures x == from && c == mb ==> !Uncounted(OwnerPc(SenderCounted(s, t, mb, from), c), c, x)
    ensures SenderCounted(s, t, mb, from).boxes[c].queue == s.boxes[c].queue
  {
    hide Inv;
    InvThread(s, t);
    OwnerHasLock(s, c);
  }

  /** The three places where a mutex is released, and where the thread goes from there. */
  predicate Releases(pc: Pc, b: Id, after: Pc) {
    || (pc.AddRefUnlock? && b == pc.from && after == AddPost(pc.mb))
    || (pc.NextUnrefUnlock? && b == pc.from && after == NextDequeue(pc.mb, pc.from, pc.entry))
    || (pc.Unlock? && b == pc.mb && after == Idle)
  }

  lemma ReleaseStep(s: State, t: Thread, b: Id, after: Pc)
    requires Inv(s) && t in s.pcs && Releases(s.pcs[t], b, after)
    ensures Locks(s.pcs[t]) <= s.boxes.Keys && b in s.boxes && Inv(Released(s, t, b, after))
  {
    hide Inv, Local, From, SendersOk;
    InvThread(s, t);
    var n := Released(s, t, b, after);
    ReleaseLocal(s, t, b, after);
    forall c, x | c in n.boxes && Affected(s, n, t, b, c, x)
      ensures SendersOk(n, c, x)
    {
      ReleaseSenders(s, t, b, after, c, x);
    }
    hide Released;
    StepKeeps(s, n, t, b);
  }

  lemma ReleaseSenders(s: State, t: Thread, b: Id, after: Pc, c: Id, x: Id)
    requires Inv(s) && t in s.pcs && Releases(s.pcs[t], b, after) && b in s.boxes && c in s.boxes
    ensures SendersOk(Released(s, t, b, after), c, x)
  {
    hide Inv, From;
    InvThread(s, t);
    OwnerHasLock(s, c);
    SendersStay(s, Released(s, t, b, after), c, x);
  }

  lemma ReleaseLocal(s: State, t: Thread, b: Id, after: Pc)
    requires Inv(s) && t in s.pcs && Releases(s.pcs[t], b, after) && b in s.boxes
    ensures Local(s, Released(s, t, b, after), t, b)
  {
    hide Inv, From, Framed, BoxOk, ThreadOk;
    LockIsOwner(s, t, b);
    InvBox(s, b);
    ReleaseFramed(s, t, b, after);
    ReleaseBox(s, t, b, after);
    ReleaseThread(s, t, b, after);
  }

  lemma ReleaseThread(s: State, t: Thread, b: Id, after: Pc)
    requires Inv(s) && t in s.pcs && Releases(s.pcs[t], b, after) && b in s.boxes
    ensures ThreadOk(Released(s, t, b, after), t)
  {
    hide Inv;
    InvThread(s, t);
  }

  lemma ReleaseFramed(s: State, t: Thread, b: Id, after: Pc)
    requires t in s.pcs && b in s.boxes && s.boxes[b].owner == By(t)
    ensures Framed(s, Released(s, t, b, after), t, b)
  {
  }

  lemma ReleaseBox(s: State, t: Thread, b: Id, after: Pc)
    requires Inv(s) && t in s.pcs && Releases(s.pcs[t], b, after) && b in s.boxes
    ensures BoxOk(Released(s, t, b, after), b)
  {
    hide Inv, From;
    InvThread(s, t);
    InvBox(s, b);
  }

  lemma PostStep(s: State, t: Thread, mb: Id)
    requires Inv(s) && t in s.pcs && s.pcs[t] == AddPost(mb)
    ensures mb in s.boxes && Inv(Posted(s, t, mb))
  {
    hide Inv, Local, From, SendersOk;
    InvThread(s, t);
    var n := Posted(s, t, mb);
    PostLocal(s, t, mb);
    forall c, x | c in n.boxes && Affected(s, n, t, mb, c, x)
      ensures SendersOk(n, c, x)
    {
      SendersStay(s, n, c, x);
    }
    hide Posted;
    StepKeeps(s, n, t, mb);
  }

  lemma PostLocal(s: State, t: Thread, mb: Id)
    requires Inv(s) && t in s.pcs && s.pcs[t] == AddPost(mb) && mb in s.boxes
    ensures Local(s, Posted(s, t, mb), t, mb)
  {
    hide Inv, From;
    InvThread(s, t);
    InvBox(s, mb);
  }

  lemma ItemsTakenStep(s: State, t: Thread, mb: Id)
    requires Inv(s) && t in s.pcs && s.pcs[t] == NextWait(mb)
    ensures mb in s.boxes && (s.boxes[mb].items > 0 ==> Inv(ItemsTaken(s, t, mb)))
  {
    hide Inv, Local, From, SendersOk;
    InvThread(s, t);
    if s.boxes[mb].items > 0 {
      var n := ItemsTaken(s, t, mb);
      ItemsTakenLocal(s, t, mb);
      forall c, x | c in n.boxes && Affected(s, n, t, mb, c, x)
        ensures SendersOk(n, c, x)
      {
        InvBox(s, c);
        SendersStay(s, n, c, x);
      }
      hide ItemsTaken;
      StepKeeps(s, n, t, mb);
    }
  }

  lemma ItemsTakenLocal(s: State, t: Thread, mb: Id)
    requires Inv(s) && t in s.pcs && s.pcs[t] == NextWait(mb) && mb in s.boxes && s.boxes[mb].items > 0
    ensures Local(s, ItemsTaken(s, t, mb), t, mb)
  {
    hide Inv, From, Framed, BoxOk;
    InvThread(s, t);
    InvBox(s, mb);
    ItemsTakenFramed(s, t, mb);
    ItemsTakenBox(s, t, mb);
  }

  lemma ItemsTakenFramed(s: State, t: Thread, mb: Id)
    requires t in s.pcs && mb in s.boxes
    ensures Framed(s, ItemsTaken(s, t, mb), t, mb)
  {
  }

  lemma ItemsTakenBox(s: State, t: Thread, mb: Id)
    requires Inv(s) && t in s.pcs && s.pcs[t] == NextWait(mb) && mb in s.boxes && s.boxes[mb].items > 0
    ensures BoxOk(ItemsTaken(s, t, mb), mb)
  {
    hide Inv, From;
    InvBox(s, mb);
    assert t !in s.boxes[mb].past;
  }

  /** A consumer past the semaphore finds the queue not empty, unless the mailbox is defunct. */
  lemma SomethingQueued(s: State, t: Thread, mb: Id)
    requires Inv(s) && t in s.pcs && s.pcs[t] == NextLock(mb)
    ensures mb in s.boxes && (s.boxes[mb].owner == Free && !s.boxes[mb].defunct ==> s.boxes[mb].queue != [])
  {
    hide Inv, From;
    InvThread(s, t);
    InvBox(s, mb);
    assert t in s.boxes[mb].past;
    assert |s.boxes[mb].past| >= |{t}| by { assert s.boxes[mb].past == {t} + (s.boxes[mb].past - {t}); }
  }

  lemma NextLockStep(s: State, t: Thread, mb: Id)
    requires Inv(s) && t in s.pcs && s.pcs[t] == NextLock(mb)
    ensures mb in s.boxes
    ensures (s.boxes[mb].owner == Free ==>
            (s.boxes[mb].defunct || s.boxes[mb].queue != []) && Inv(NextLocked(s, t, mb)))
  {
    hide Inv, Local, From, SendersOk;
    SomethingQueued(s, t, mb);
    if s.boxes[mb].owner == Free {
      var n := NextLocked(s, t, mb);
      NextLockLocal(s, t, mb);
      forall c, x | c in n.boxes && Affected(s, n, t, mb, c, x)
        ensures SendersOk(n, c, x)
      {
        NextLockSenders(s, t, mb, c, x);
      }
      hide NextLocked;
      StepKeeps(s, n, t, mb);
    }
  }

  lemma NextLockLocal(s: State, t: Thread, mb: Id)
    requires Inv(s) && t in s.pcs && s.pcs[t] == NextLock(mb) && mb in s.boxes && s.boxes[mb].owner == Free
    requires !s.boxes[mb].defunct ==> s.boxes[mb].queue != []
    ensures Local(s, NextLocked(s, t, mb), t, mb)
  {
    hide Inv, From, Framed, BoxOk, ThreadOk;
    InvBox(s, mb);
    NextLockFramed(s, t, mb);
    NextLockBox(s, t, mb);
    NextLockThread(s, t, mb);
    NextLockStand(s, t, mb);
    hide NextLocked, RefsOf, SameStand;
  }

  lemma NextLockStand(s: State, t: Thread, mb: Id)
    requires t in s.pcs && s.pcs[t] == NextLock(mb) && mb in s.boxes
    requires !s.boxes[mb].defunct ==> s.boxes[mb].queue != []
    ensures var n := NextLocked(s, t, mb);
            && t in n.pcs && mb in n.boxes && RefsOf(n, mb) == RefsOf(s, mb)
            && (forall c :: c != mb ==> SameStand(s.pcs[t], n.pcs[t], c))
  {
  }

  lemma NextLockFramed(s: State, t: Thread, mb: Id)
    requires t in s.pcs && mb in s.boxes && s.boxes[mb].owner == Free
    requires !s.boxes[mb].defunct ==> s.boxes[mb].queue != []
    ensures Framed(s, NextLocked(s, t, mb), t, mb)
  {
  }

  lemma NextLockBox(s: State, t: Thread, mb: Id)
    requires Inv(s) && t in s.pcs && s.pcs[t] == NextLock(mb) && mb in s.boxes && s.boxes[mb].owner == Free
    requires !s.boxes[mb].defunct ==> s.boxes[mb].queue != []
    ensures BoxOk(NextLocked(s, t, mb), mb)
  {
    hide Inv, From;
    InvThread(s, t);
    InvBox(s, mb);
    var q := s.boxes[mb].queue;
    assert t in s.boxes[mb].past;
    if q != [] { assert s.boxes[mb].delivered + [q[0]] + q[1..] == s.boxes[mb].delivered + q; }
  }

  lemma NextLockThread(s: State, t: Thread, mb: Id)
    requires Inv(s) && t in s.pcs && s.pcs[t] == NextLock(mb) && mb in s.boxes && s.boxes[mb].owner == Free
    requires !s.boxes[mb].defunct ==> s.boxes[mb].queue != []
    ensures ThreadOk(NextLocked(s, t, mb), t)
  {
    hide Inv;
    InvThread(s, t);
    var q := s.boxes[mb].queue;
    if q != [] && CountsSender(mb, q[0]) {
      InvSenders(s, mb, q[0].from);
      InvUsed(s, q[0].from);
    }
  }

  lemma InvUsed(s: State, b: Id)
    requires Inv(s)
    ensures b in s.boxes ==> b in s.used
  {
  }

  lemma NextLockSenders(s: State, t: Thread, mb: Id, c: Id, x: Id)
    requires Inv(s) && t in s.pcs && s.pcs[t] == NextLock(mb) && mb in s.boxes && s.boxes[mb].owner == Free
    requires c in s.boxes
    requires !s.boxes[mb].defunct ==> s.boxes[mb].queue != []
    ensures SendersOk(NextLocked(s, t, mb), c, x)
  {
    hide Inv;
    InvSenders(s, c, x);
    InvBox(s, c);
  }

  lemma TakeOutStep(s: State, t: Thread, mb: Id, from: Id, e: Entry)
    requires Inv(s) && t in s.pcs && s.pcs[t] == NextDequeue(mb, from, e)
    ensures mb in s.boxes && s.boxes[mb].queue != [] && Inv(TakenOut(s, t, mb, e))
  {
    hide Inv, Local, From, SendersOk;
    InvThread(s, t);
    var n := TakenOut(s, t, mb, e);
    TakeOutLocal(s, t, mb, from, e);
    forall c, x | c in n.boxes && Affected(s, n, t, mb, c, x)
      ensures SendersOk(n, c, x)
    {
      TakeOutSenders(s, t, mb, from, e, c, x);
    }
    hide TakenOut;
    StepKeeps(s, n, t, mb);
  }

  lemma TakeOutLocal(s: State, t: Thread, mb: Id, from: Id, e: Entry)
    requires Inv(s) && t in s.pcs && s.pcs[t] == NextDequeue(mb, from, e) && mb in s.boxes && s.boxes[mb].queue != []
    ensures Local(s, TakenOut(s, t, mb, e), t, mb)
  {
    hide Inv, From;
    InvThread(s, t);
    InvBox(s, mb);
    var q := s.boxes[mb].queue;
    assert t in s.boxes[mb].past;
    assert s.boxes[mb].delivered + [q[0]] + q[1..] == s.boxes[mb].delivered + q;
  }

  lemma TakeOutSenders(s: State, t: Thread, mb: Id, from: Id, e: Entry, c: Id, x: Id)
    requires Inv(s) && t in s.pcs && s.pcs[t] == NextDequeue(mb, from, e) && mb in s.boxes && s.boxes[mb].queue != []
    requires c in s.boxes
    ensures SendersOk(TakenOut(s, t, mb, e), c, x)
  {
    hide Inv;
    InvThread(s, t);
    InvSenders(s, c, x);
    InvBox(s, c);
  }

  lemma ShutLockStep(s: State, t: Thread, mb: Id)
    requires Inv(s) && t in s.pcs && s.pcs[t] == ShutLock(mb)
    ensures mb in s.boxes && (s.boxes[mb].owner == Free ==> Inv(ShutLocked(s, t, mb)))
  {
    hide Inv, Local, From, SendersOk;
    InvThread(s, t);
    if s.boxes[mb].owner == Free {
      var n := ShutLocked(s, t, mb);
      ShutLockLocal(s, t, mb);
      forall c, x | c in n.boxes && Affected(s, n, t, mb, c, x)
        ensures SendersOk(n, c, x)
      {
        InvBox(s, c);
        SendersStay(s, n, c, x);
      }
      hide ShutLocked;
      StepKeeps(s, n, t, mb);
    }
  }

  lemma ShutLockLocal(s: State, t: Thread, mb: Id)
    requires Inv(s) && t in s.pcs && s.pcs[t] == ShutLock(mb) && mb in s.boxes && s.boxes[mb].owner == Free
    ensures Local(s, ShutLocked(s, t, mb), t, mb)
  {
    hide Inv, From;
    InvThread(s, t);
    InvBox(s, mb);
  }

  lemma ShutPostStep(s: State, t: Thread, mb: Id)
    requires Inv(s) && t in s.pcs && s.pcs[t] == ShutPost(mb)
    ensures mb in s.boxes && Inv(ShutPosted(s, t, mb))
  {
    hide Inv, Local, From, SendersOk;
    InvThread(s, t);
    var n := ShutPosted(s, t, mb);
    ShutPostLocal(s, t, mb);
    forall c, x | c in n.boxes && Affected(s, n, t, mb, c, x)
      ensures SendersOk(n, c, x)
    {
      SendersStay(s, n, c, x);
    }
    hide ShutPosted;
    StepKeeps(s, n, t, mb);
  }

  lemma ShutPostLocal(s: State, t: Thread, mb: Id)
    requires Inv(s) && t in s.pcs && s.pcs[t] == ShutPost(mb) && mb in s.boxes
    ensures Local(s, ShutPosted(s, t, mb), t, mb)
  {
    hide Inv, From;
    InvThread(s, t);
    InvBox(s, mb);
  }

  lemma RefStep(s: State, t: Thread, mb: Id)
    requires Inv(s) && t in s.pcs && s.pcs[t] == RefLock(mb)
    ensures mb in s.boxes && (s.boxes[mb].owner == Free ==> Inv(Referenced(s, t, mb)))
  {
    hide Inv, Local, From, SendersOk;
    InvThread(s, t);
    if s.boxes[mb].owner == Free {
      var n := Referenced(s, t, mb);
      RefLocal(s, t, mb);
      forall c, x | c in n.boxes && Affected(s, n, t, mb, c, x)
        ensures SendersOk(n, c, x)
      {
        InvBox(s, c);
        SendersStay(s, n, c, x);
      }
      hide Referenced;
      StepKeeps(s, n, t, mb);
    }
  }

  lemma RefLocal(s: State, t: Thread, mb: Id)
    requires Inv(s) && t in s.pcs && s.pcs[t] == RefLock(mb) && mb in s.boxes && s.boxes[mb].owner == Free
    ensures Local(s, Referenced(s, t, mb), t, mb)
  {
    hide Inv, From, Framed, BoxOk;
    InvThread(s, t);
    InvBox(s, mb);
    RefFramed(s, t, mb);
    RefBox(s, t, mb);
  }

  lemma RefFramed(s: State, t: Thread, mb: Id)
    requires Inv(s) && t in s.pcs && mb in s.boxes && s.boxes[mb].owner == Free
    ensures Framed(s, Referenced(s, t, mb), t, mb)
  {
    hide Inv, BoxOk;
    InvBox(s, mb);
    var n := Referenced(s, t, mb);
    WithRefElsewhere(s, mb, Held(t));
    assert n.refs == WithRef(s, mb, Held(t)).refs;
    hide WithRef;
    forall y
      ensures RefsOf(n, y) == RefsOf(WithRef(s, mb, Held(t)), y)
    {
      SameRefs(WithRef(s, mb, Held(t)), n, y);
    }
    hide RefsOf;
  }

  lemma SameRefs(s: State, n: State, x: Id)
    requires n.refs == s.refs
    ensures RefsOf(n, x) == RefsOf(s, x)
  {
  }

  lemma WithRefElsewhere(s: State, b: Id, r: Ref)
    ensures var n := WithRef(s, b, r);
            && n.refs.Keys == s.refs.Keys + {b} && (forall y :: y != b ==> RefsOf(n, y) == RefsOf(s, y))
            && (forall q :: q != r ==> RefsOf(n, b)[q] == RefsOf(s, b)[q])
  {
    var n, m := WithRef(s, b, r), RefsOf(s, b);
    assert n.refs == s.refs[b := m + multiset{r}];
    hide WithRef;
    forall q | q != r
      ensures RefsOf(n, b)[q] == m[q]
    {
      assert (m + multiset{r})[q] == m[q];
    }
  }

  lemma RefBox(s: State, t: Thread, mb: Id)
    requires Inv(s) && t in s.pcs && s.pcs[t] == RefLock(mb) && mb in s.boxes && s.boxes[mb].owner == Free
    ensures BoxOk(Referenced(s, t, mb), mb)
  {
    hide Inv, From;
    InvBox(s, mb);
  }

  // ---- giving references up ----

  /** A message in an unlocked queue keeps its sender. */
  lemma SenderKept(s: State, t: Thread, mb: Id, from: Id, e: Entry)
    requires Inv(s) && t in s.pcs && s.pcs[t] == NextUnrefLock(mb, from, e)
    ensures mb in s.boxes && from in s.boxes && from != mb && RefsOf(s, from)[Queued(mb)] >= 1
  {
    hide Inv;
    InvThread(s, t);
    InvSenders(s, mb, from);
  }

  /** Which reference a thread is about to give up: its own, or that of the message it is about to take. */
  ghost predicate GivesUp(s: State, t: Thread, b: Id, r: Ref, pc: Pc) {
    && t in s.pcs && b in s.boxes && s.boxes[b].owner == Free && RefsOf(s, b)[r] >= 1
    && (|| (s.pcs[t] == UnrefLock(b) && r == Held(t) && pc == Unlock(b))
        || (s.pcs[t].NextUnrefLock? && s.pcs[t].from == b && s.pcs[t].mb != b && r == Queued(s.pcs[t].mb) &&
           pc == NextUnrefUnlock(s.pcs[t].mb, b, s.pcs[t].entry)))
  }

  lemma GivenUpInv(s: State, t: Thread, b: Id, r: Ref, pc: Pc)
    requires Inv(s) && GivesUp(s, t, b, r, pc)
    ensures Inv(GivenUp(s, t, b, r, pc))
  {
    hide Inv, Local, From, SendersOk;
    var n := GivenUp(s, t, b, r, pc);
    GivenUpLocal(s, t, b, r, pc);
    forall c, x | c in n.boxes && Affected(s, n, t, b, c, x)
      ensures SendersOk(n, c, x)
    {
      GivenUpSenders(s, t, b, r, pc, c, x);
    }
    hide GivenUp;
    StepKeeps(s, n, t, b);
  }

  lemma GivenUpLocal(s: State, t: Thread, b: Id, r: Ref, pc: Pc)
    requires Inv(s) && GivesUp(s, t, b, r, pc)
    ensures Local(s, GivenUp(s, t, b, r, pc), t, b)
  {
    hide Inv, From, BoxOk, Framed, ThreadOk;
    InvBox(s, b);
    GivenUpThread(s, t, b, r, pc);
    GivenUpBox(s, t, b, r, pc);
    GivenUpFramed(s, t, b, r, pc);
  }

  lemma GivenUpThread(s: State, t: Thread, b: Id, r: Ref, pc: Pc)
    requires Inv(s) && GivesUp(s, t, b, r, pc)
    ensures ThreadOk(GivenUp(s, t, b, r, pc), t)
  {
    hide Inv, RefsOf;
    InvThread(s, t);
    GivenUpOwns(s, t, b, r, pc);
    hide Owns;
  }

  /** Only what a thread gives up itself is no longer its own. */
  lemma GivenUpOwns(s: State, t: Thread, b: Id, r: Ref, pc: Pc)
    requires Inv(s) && b in s.boxes
    ensures forall x, u :: Owns(s, u, x) && r != Held(u) ==> Owns(GivenUp(s, t, b, r, pc), u, x)
  {
  }

  lemma GivenUpFramed(s: State, t: Thread, b: Id, r: Ref, pc: Pc)
    requires Inv(s) && GivesUp(s, t, b, r, pc)
    ensures Framed(s, GivenUp(s, t, b, r, pc), t, b)
  {
    hide Inv, BoxOk;
    InvBox(s, b);
    GivenUpElsewhere(s, t, b, r, pc);
    hide RefsOf, WithoutRef;
  }

  lemma GivenUpElsewhere(s: State, t: Thread, b: Id, r: Ref, pc: Pc)
    requires b in s.boxes && b in s.refs && (r.Held? ==> r.thread == t)
    ensures var n := GivenUp(s, t, b, r, pc);
            && n.refs.Keys == s.refs.Keys && (forall y :: y != b ==> RefsOf(n, y) == RefsOf(s, y))
            && (forall u :: u != t ==> RefsOf(n, b)[Held(u)] == RefsOf(s, b)[Held(u)])
  {
    var n, m := GivenUp(s, t, b, r, pc), RefsOf(s, b);
    assert n.refs == s.refs[b := m - multiset{r}];
    hide GivenUp;
    forall u | u != t
      ensures RefsOf(n, b)[Held(u)] == m[Held(u)]
    {
      LessOne(m, r, Held(u));
    }
  }

  lemma LessOne(m: multiset<Ref>, r: Ref, q: Ref)
    requires q != r
    ensures (m - multiset{r})[q] == m[q]
  {
  }

  lemma GivenUpCount(s: State, t: Thread, b: Id, r: Ref, pc: Pc)
    requires b in s.boxes && RefsOf(s, b)[r] >= 1
    ensures |RefsOf(GivenUp(s, t, b, r, pc), b)| == |RefsOf(s, b)| - 1
  {
    assert RefsOf(s, b) == RefsOf(GivenUp(s, t, b, r, pc), b) + multiset{r};
  }

  lemma GivenUpBox(s: State, t: Thread, b: Id, r: Ref, pc: Pc)
    requires Inv(s) && GivesUp(s, t, b, r, pc)
    ensures BoxOk(GivenUp(s, t, b, r, pc), b)
  {
    hide Inv;
    InvBox(s, b);
    GivenUpCount(s, t, b, r, pc);
    hide RefsOf, WithoutRef;
  }

  lemma GivenUpSenders(s: State, t: Thread, b: Id, r: Ref, pc: Pc, c: Id, x: Id)
    requires Inv(s) && GivesUp(s, t, b, r, pc) && c in s.boxes
    ensures SendersOk(GivenUp(s, t, b, r, pc), c, x)
  {
    GivenUpRefs(s, t, b, r, pc, c, x);
    GivenUpOwner(s, t, b, r, pc, c, x);
    InvSenders(s, c, x);
    hide Inv, From, RefsOf, OwnerPc, Uncounted;
  }

  lemma GivenUpRefs(s: State, t: Thread, b: Id, r: Ref, pc: Pc, c: Id, x: Id)
    requires Inv(s) && GivesUp(s, t, b, r, pc) && c in s.boxes
    ensures RefsOf(GivenUp(s, t, b, r, pc), x)[Queued(c)] ==
            RefsOf(s, x)[Queued(c)] - (if x == b && r == Queued(c) then 1 else 0)
  {
    hide Inv;
  }

  lemma GivenUpOwner(s: State, t: Thread, b: Id, r: Ref, pc: Pc, c: Id, x: Id)
    requires Inv(s) && GivesUp(s, t, b, r, pc) && c in s.boxes
    ensures Uncounted(OwnerPc(GivenUp(s, t, b, r, pc), c), c, x) <==>
            Uncounted(OwnerPc(s, c), c, x) || (x == b && r == Queued(c))
    ensures x == b && r == Queued(c) ==> !Uncounted(OwnerPc(s, c), c, x)
    ensures GivenUp(s, t, b, r, pc).boxes[c].queue == s.boxes[c].queue
  {
    hide Inv;
    OwnerHasLock(s, c);
    OwnerHasLock(s, b);
    if s.pcs[t].NextUnrefLock? { LockIsOwner(s, t, s.pcs[t].mb); }
  }

  lemma OwnerHasLock(s: State, b: Id)
    requires Inv(s) && b in s.boxes
    ensures s.boxes[b].owner.By? ==> s.boxes[b].owner.thread in s.pcs && b in Locks(s.pcs[s.boxes[b].owner.thread])
  {
    hide Inv;
    InvBox(s, b);
  }

  lemma LockIsOwner(s: State, t: Thread, b: Id)
    requires Inv(s) && t in s.pcs && b in Locks(s.pcs[t])
    ensures b in s.boxes && s.boxes[b].owner == By(t)
  {
    hide Inv;
    InvThread(s, t);
  }

  lemma SenderReleasedStep(s: State, t: Thread, mb: Id, from: Id, e: Entry)
    requires Inv(s) && t in s.pcs && s.pcs[t] == NextUnrefLock(mb, from, e)
    ensures mb in s.boxes && from in s.boxes && (s.boxes[from].owner == Free ==> Inv(SenderReleased(s, t, mb, from, e)))
  {
    hide Inv, GivenUp;
    SenderKept(s, t, mb, from, e);
    if s.boxes[from].owner == Free {
      if s.boxes[from].count != 1 {
        GivenUpInv(s, t, from, Queued(mb), NextUnrefUnlock(mb, from, e));
      } else {
        SenderFreed(s, t, mb, from, e);
      }
    }
  }

  lemma UnrefStep(s: State, t: Thread, mb: Id)
    requires Inv(s) && t in s.pcs && s.pcs[t] == UnrefLock(mb)
    ensures mb in s.boxes && (s.boxes[mb].owner == Free ==> Inv(Unreferenced(s, t, mb)))
  {
    hide Inv, GivenUp;
    InvThread(s, t);
    if s.boxes[mb].owner == Free {
      if s.boxes[mb].count != 1 {
        GivenUpInv(s, t, mb, Held(t), Unlock(mb));
      } else {
        LastUnref(s, t, mb);
      }
    }
  }

  // ---- finalization ----

  /** The state after the last reference to `b`, `r`, was given up by `t`. */
  function Finalized(s: State, t: Thread, b: Id, pc: Pc): State { At(Freed(s, b), t, pc) }

  /** What is known when the count of `b` drops to 0. */
  ghost predicate LastRef(s: State, t: Thread, b: Id, r: Ref, pc: Pc) {
    && t in s.pcs && b in s.boxes && b in s.refs && s.boxes[b].owner == Free && s.refs[b] == multiset{r}
    && (|| (s.pcs[t] == UnrefLock(b) && r == Held(t) && pc == Idle)
        || (s.pcs[t].NextUnrefLock? && s.pcs[t].from == b && s.pcs[t].mb != b && r == Queued(s.pcs[t].mb) &&
           pc == NextDequeue(s.pcs[t].mb, b, s.pcs[t].entry)))
  }

  lemma OneRef(m: multiset<Ref>, r: Ref)
    requires |m| == 1 && m[r] >= 1
    ensures m == multiset{r}
  {
    assert m == multiset{r} + (m - multiset{r});
  }

  lemma LastUnref(s: State, t: Thread, mb: Id)
    requires Inv(s) && t in s.pcs && s.pcs[t] == UnrefLock(mb) && mb in s.boxes && s.boxes[mb].owner == Free
    requires s.boxes[mb].count == 1
    ensures LastRef(s, t, mb, Held(t), Idle) && Unreferenced(s, t, mb) == Finalized(s, t, mb, Idle)
    ensures Inv(Unreferenced(s, t, mb))
  {
    hide Inv, From;
    InvThread(s, t);
    InvBox(s, mb);
    OneRef(s.refs[mb], Held(t));
    var n := Finalized(s, t, mb, Idle);
    assert Unreferenced(s, t, mb) == n by {
      assert s.boxes - {mb} == n.boxes && s.refs - {mb} == n.refs;
    }
    FinalizedInv(s, t, mb, Held(t), Idle);
  }

  lemma SenderFreed(s: State, t: Thread, mb: Id, from: Id, e: Entry)
    requires Inv(s) && t in s.pcs && s.pcs[t] == NextUnrefLock(mb, from, e) && from in s.boxes && mb in s.boxes
    requires from != mb
    requires RefsOf(s, from)[Queued(mb)] >= 1 && s.boxes[from].owner == Free && s.boxes[from].count == 1
    ensures LastRef(s, t, from, Queued(mb), NextDequeue(mb, from, e))
    ensures SenderReleased(s, t, mb, from, e) == Finalized(s, t, from, NextDequeue(mb, from, e))
    ensures Inv(SenderReleased(s, t, mb, from, e))
  {
    hide Inv, From;
    InvThread(s, t);
    InvBox(s, from);
    OneRef(s.refs[from], Queued(mb));
    var n := Finalized(s, t, from, NextDequeue(mb, from, e));
    assert SenderReleased(s, t, mb, from, e) == n by {
      assert s.boxes - {from} == n.boxes && s.refs - {from} == n.refs;
    }
    FinalizedInv(s, t, from, Queued(mb), NextDequeue(mb, from, e));
  }

  /** No other thread is about to touch the mailbox that is freed. */
  lemma FinalizedThread(s: State, t: Thread, b: Id, r: Ref, pc: Pc, u: Thread)
    requires Inv(s) && LastRef(s, t, b, r, pc) && u in s.pcs
    ensures ThreadOk(Finalized(s, t, b, pc), u)
  {
    hide Inv, From;
    InvThread(s, u);
    InvBox(s, b);
    var n := Finalized(s, t, b, pc);
    assert u != t ==> b !in Needs(s.pcs[u]) by {
      assert u != t ==> s.refs[b][Held(u)] == 0;
    }
    assert forall c :: c != b ==> RefsOf(n, c) == RefsOf(s, c);
  }

  lemma FinalizedBox(s: State, t: Thread, b: Id, r: Ref, pc: Pc, c: Id)
    requires Inv(s) && LastRef(s, t, b, r, pc) && c in s.boxes && c != b
    ensures BoxOk(Finalized(s, t, b, pc), c)
  {
    hide Inv, From;
    InvBox(s, c);
    var n := Finalized(s, t, b, pc);
    assert Unposted(OwnerPc(n, c), c) <==> Unposted(OwnerPc(s, c), c);
  }

  lemma FinalizedSenders(s: State, t: Thread, b: Id, r: Ref, pc: Pc, c: Id, x: Id)
    requires Inv(s) && LastRef(s, t, b, r, pc) && c in s.boxes && c != b
    ensures SendersOk(Finalized(s, t, b, pc), c, x)
  {
    FinalizedRefs(s, t, b, r, pc, c, x);
    FinalizedOwner(s, t, b, r, pc, c, x);
    InvSenders(s, c, x);
    hide Inv, From, RefsOf, OwnerPc, Uncounted;
  }

  lemma FinalizedRefs(s: State, t: Thread, b: Id, r: Ref, pc: Pc, c: Id, x: Id)
    requires LastRef(s, t, b, r, pc)
    ensures RefsOf(Finalized(s, t, b, pc), x)[Queued(c)] ==
            RefsOf(s, x)[Queued(c)] - (if x == b && r == Queued(c) then 1 else 0)
  {
  }

  lemma FinalizedOwner(s: State, t: Thread, b: Id, r: Ref, pc: Pc, c: Id, x: Id)
    requires Inv(s) && LastRef(s, t, b, r, pc) && c in s.boxes && c != b
    ensures Uncounted(OwnerPc(Finalized(s, t, b, pc), c), c, x) <==>
            Uncounted(OwnerPc(s, c), c, x) || (x == b && r == Queued(c))
    ensures x == b && r == Queued(c) ==> !Uncounted(OwnerPc(s, c), c, x)
    ensures c in Finalized(s, t, b, pc).boxes && Finalized(s, t, b, pc).boxes[c].queue == s.boxes[c].queue
  {
    hide Inv;
    OwnerHasLock(s, c);
    if s.pcs[t].NextUnrefLock? { LockIsOwner(s, t, s.pcs[t].mb); }
  }

  lemma FinalizedInv(s: State, t: Thread, b: Id, r: Ref, pc: Pc)
    requires Inv(s) && LastRef(s, t, b, r, pc)
    ensures Inv(Finalized(s, t, b, pc))
  {
    hide ThreadOk, BoxOk, SendersOk;
    var n := Finalized(s, t, b, pc);
    forall u | u in n.pcs
      ensures ThreadOk(n, u)
    {
      FinalizedThread(s, t, b, r, pc, u);
    }
    forall c | c in n.boxes
      ensures BoxOk(n, c)
    {
      FinalizedBox(s, t, b, r, pc, c);
    }
    forall c, x | c in n.boxes
      ensures SendersOk(n, c, x)
    {
      FinalizedSenders(s, t, b, r, pc, c, x);
    }
  }

  // ---- calls, handing references on, new mailboxes ----

  lemma BeginStep(s: State, t: Thread, c: Call)
    requires Inv(s) && t in s.pcs && s.pcs[t] == Idle && MayCall(s, t, c)
    ensures Inv(At(s, t, Start(c)))
  {
    hide Inv, Local, From, SendersOk;
    var n, b := At(s, t, Start(c)), c.mb;
    OwnedExists(s, t, b);
    BeginLocal(s, t, c);
    forall d, x | d in n.boxes && Affected(s, n, t, b, d, x)
      ensures SendersOk(n, d, x)
    {
      InvBox(s, d);
      SendersStay(s, n, d, x);
    }
    StepKeeps(s, n, t, b);
  }

  lemma OwnedExists(s: State, t: Thread, b: Id)
    requires Inv(s) && Owns(s, t, b)
    ensures b in s.boxes
  {
  }

  lemma BeginLocal(s: State, t: Thread, c: Call)
    requires Inv(s) && t in s.pcs && s.pcs[t] == Idle && MayCall(s, t, c) && c.mb in s.boxes
    ensures Local(s, At(s, t, Start(c)), t, c.mb)
  {
    InvBox(s, c.mb);
    if c.CallAdd? && c.entry.Message? { OwnedExists(s, t, c.entry.from); }
    hide Inv, From, Framed, BoxOk, ThreadOk;
    BeginFramed(s, t, c);
    BeginBox(s, t, c);
    BeginThread(s, t, c);
  }

  lemma BeginThread(s: State, t: Thread, c: Call)
    requires t in s.pcs && MayCall(s, t, c) && c.mb in s.boxes
    requires c.CallAdd? && c.entry.Message? ==> c.entry.from in s.boxes
    ensures ThreadOk(At(s, t, Start(c)), t)
  {
  }

  lemma BeginFramed(s: State, t: Thread, c: Call)
    requires t in s.pcs && c.mb in s.boxes
    ensures Framed(s, At(s, t, Start(c)), t, c.mb)
  {
  }

  lemma BeginBox(s: State, t: Thread, c: Call)
    requires Inv(s) && t in s.pcs && s.pcs[t] == Idle && c.mb in s.boxes
    ensures BoxOk(At(s, t, Start(c)), c.mb)
  {
    hide Inv;
    InvBox(s, c.mb);
  }

  lemma GiveStep(s: State, t: Thread, u: Thread, b: Id)
    requires Inv(s) && t in s.pcs && u in s.pcs && s.pcs[t] == Idle && Owns(s, t, b)
    ensures Inv(Given(s, t, u, b))
  {
    hide ThreadOk, BoxOk, SendersOk, RefsOf;
    var n := Given(s, t, u, b);
    GivenRefs(s, t, u, b);
    forall v | v in n.pcs
      ensures ThreadOk(n, v)
    {
      GiveThread(s, t, u, b, v);
    }
    forall c | c in n.boxes
      ensures BoxOk(n, c)
    {
      GiveBox(s, t, u, b, c);
    }
    forall c, x | c in n.boxes
      ensures SendersOk(n, c, x)
    {
      GiveSenders(s, t, u, b, c, x);
    }
  }

  lemma GivenRefs(s: State, t: Thread, u: Thread, b: Id)
    requires Inv(s) && Owns(s, t, b)
    ensures var n := Given(s, t, u, b);
            && n.refs.Keys == s.refs.Keys
            && (forall c, x :: c in n.refs && n.refs[c][Queued(x)] > 0 ==> x in s.used)
  {
  }

  lemma GiveSenders(s: State, t: Thread, u: Thread, b: Id, c: Id, x: Id)
    requires Inv(s) && t in s.pcs && u in s.pcs && s.pcs[t] == Idle && Owns(s, t, b) && c in s.boxes
    ensures SendersOk(Given(s, t, u, b), c, x)
  {
    hide Inv, From;
    SendersStay(s, Given(s, t, u, b), c, x);
  }

  lemma GiveThread(s: State, t: Thread, u: Thread, b: Id, v: Thread)
    requires Inv(s) && t in s.pcs && u in s.pcs && s.pcs[t] == Idle && Owns(s, t, b) && v in s.pcs
    ensures ThreadOk(Given(s, t, u, b), v)
  {
    hide Inv;
    InvThread(s, v);
  }

  lemma GiveBox(s: State, t: Thread, u: Thread, b: Id, c: Id)
    requires Inv(s) && t in s.pcs && u in s.pcs && s.pcs[t] == Idle && Owns(s, t, b) && c in s.boxes
    ensures BoxOk(Given(s, t, u, b), c)
  {
    hide Inv;
    InvBox(s, c);
  }

  lemma CreateStep(s: State, t: Thread, b: Id)
    requires Inv(s) && t in s.pcs && s.pcs[t] == Idle && b !in s.used
    ensures Inv(Created(s, t, b))
  {
    hide ThreadOk, BoxOk, SendersOk;
    var n := Created(s, t, b);
    forall u | u in n.pcs
      ensures ThreadOk(n, u)
    {
      CreateThread(s, t, b, u);
    }
    forall c | c in n.boxes
      ensures BoxOk(n, c)
    {
      CreateBox(s, t, b, c);
    }
    forall c, x | c in n.boxes
      ensures SendersOk(n, c, x)
    {
      CreateSenders(s, t, b, c, x);
    }
  }

  lemma CreateThread(s: State, t: Thread, b: Id, u: Thread)
    requires Inv(s) && t in s.pcs && s.pcs[t] == Idle && b !in s.used && u in s.pcs
    ensures ThreadOk(Created(s, t, b), u)
  {
    hide Inv;
    InvThread(s, u);
    InvUsed(s, b);
  }

  lemma CreateBox(s: State, t: Thread, b: Id, c: Id)
    requires Inv(s) && t in s.pcs && s.pcs[t] == Idle && b !in s.used && (c in s.boxes || c == b)
    ensures BoxOk(Created(s, t, b), c)
  {
    hide Inv;
    if c in s.boxes { InvBox(s, c); }
  }

  lemma CreateSenders(s: State, t: Thread, b: Id, c: Id, x: Id)
    requires Inv(s) && t in s.pcs && s.pcs[t] == Idle && b !in s.used && (c in s.boxes || c == b)
    ensures SendersOk(Created(s, t, b), c, x)
  {
    if c == b {
      InvRefs(s, x, b);
    } else {
      InvSenders(s, c, x);
      InvBox(s, c);
      if s.boxes[c].owner.By? { InvThread(s, s.boxes[c].owner.thread); }
      assert b !in s.boxes;
    }
    hide Inv;
  }

  // ---- every action of every run ----

  /** The source never touches freed memory nor takes from an empty queue, and the invariant is kept. */
  lemma ContinueStep(s: State, t: Thread)
    requires Inv(s) && t in s.pcs && Unblocked(s, s.pcs[t])
    ensures Safe(s, s.pcs[t]) && Inv(StepOf(s, t, s.pcs[t]))
  {
    hide Inv, Unblocked, Safe, StepOf;
    var pc := s.pcs[t];
    if pc.Idle? || pc.AddLock? || pc.AddRefLock? || pc.AddRefUnlock? || pc.AddPost? {
      AddContinues(s, t);
    } else if pc.NextWait? || pc.NextLock? || pc.NextUnrefLock? || pc.NextUnrefUnlock? || pc.NextDequeue? {
      NextContinues(s, t);
    } else {
      OtherContinues(s, t);
    }
  }

  lemma AddContinues(s: State, t: Thread)
    requires Inv(s) && t in s.pcs && Unblocked(s, s.pcs[t])
    requires var pc := s.pcs[t]; pc.Idle? || pc.AddLock? || pc.AddRefLock? || pc.AddRefUnlock? || pc.AddPost?
    ensures Safe(s, s.pcs[t]) && Inv(StepOf(s, t, s.pcs[t]))
  {
    hide Inv;
    InvThread(s, t);
    match s.pcs[t]
    case Idle =>
    case AddLock(mb, e) => AddLockStep(s, t, mb, e);
    case AddRefLock(mb, from) => SenderCountedStep(s, t, mb, from);
    case AddRefUnlock(mb, from) => ReleaseStep(s, t, from, AddPost(mb));
    case AddPost(mb) => PostStep(s, t, mb);
  }

  lemma NextContinues(s: State, t: Thread)
    requires Inv(s) && t in s.pcs && Unblocked(s, s.pcs[t])
    requires var pc := s.pcs[t];
             pc.NextWait? || pc.NextLock? || pc.NextUnrefLock? || pc.NextUnrefUnlock? || pc.NextDequeue?
    ensures Safe(s, s.pcs[t]) && Inv(StepOf(s, t, s.pcs[t]))
  {
    hide Inv;
    InvThread(s, t);
    match s.pcs[t]
    case NextWait(mb) => ItemsTakenStep(s, t, mb);
    case NextLock(mb) => NextLockStep(s, t, mb);
    case NextUnrefLock(mb, from, e) => SenderReleasedStep(s, t, mb, from, e);
    case NextUnrefUnlock(mb, from, e) => ReleaseStep(s, t, from, NextDequeue(mb, from, e));
    case NextDequeue(mb, from, e) => TakeOutStep(s, t, mb, from, e);
  }

  lemma OtherContinues(s: State, t: Thread)
    requires Inv(s) && t in s.pcs && Unblocked(s, s.pcs[t])
    requires var pc := s.pcs[t]; pc.ShutLock? || pc.ShutPost? || pc.RefLock? || pc.UnrefLock? || pc.Unlock?
    ensures Safe(s, s.pcs[t]) && Inv(StepOf(s, t, s.pcs[t]))
  {
    hide Inv;
    InvThread(s, t);
    match s.pcs[t]
    case ShutLock(mb) => ShutLockStep(s, t, mb);
    case ShutPost(mb) => ShutPostStep(s, t, mb);
    case RefLock(mb) => RefStep(s, t, mb);
    case UnrefLock(mb) => UnrefStep(s, t, mb);
    case Unlock(mb) => ReleaseStep(s, t, mb, Idle);
  }

  lemma ActKeeps(s: State, a: Action)
    requires Inv(s) && Enabled(s, a)
    ensures Act(s, a).Going? && Inv(Act(s, a).state)
  {
    hide Inv, Safe, StepOf;
    match a
    case Create(t, b) => CreateStep(s, t, b);
    case Give(t, u, b) => GiveStep(s, t, u, b);
    case Begin(t, c) => BeginStep(s, t, c);
    case Continue(t) => ContinueStep(s, t);
  }

  /** Any number of threads, none of them in a call, and no mailbox yet. */
  function Initial(threads: set<Thread>): State { State(map[], map t | t in threads :: Idle, map[], {}) }

  /** A run: each action is enabled where it is taken, and the source does not crash before the last state. */
  ghost predicate IsRun(run: seq<State>, actions: seq<Action>) {
    && |run| == |actions| + 1 && (exists threads :: run[0] == Initial(threads))
    && (forall i :: 0 <= i < |actions| ==> Enabled(run[i], actions[i]) && Act(run[i], actions[i]) == Going(run[i + 1]))
  }

  lemma {:induction false} RunInv(run: seq<State>, actions: seq<Action>, i: nat)
    requires IsRun(run, actions) && i < |run|
    ensures Inv(run[i])
  {
    if i > 0 {
      RunInv(run, actions, i - 1);
      hide Inv, Act, Enabled;
      ActKeeps(run[i - 1], actions[i - 1]);
    }
  }

  /** No interleaving of any number of threads makes the source touch a freed mailbox or an empty queue's head. */
  lemma NeverCrashes(run: seq<State>, actions: seq<Action>, a: Action)
    requires IsRun(run, actions) && Enabled(run[|actions|], a)
    ensures Act(run[|actions|], a).Going?
  {
    RunInv(run, actions, |actions|);
    hide Inv, Act, Enabled;
    ActKeeps(run[|actions|], a);
  }

  /**
   * Taking out the head while delivering the entry read before keeps first in, first out exactly if that entry
   * still is the head.
   */
  lemma DequeuedKeepsOrder(m: Mailbox, t: Thread, e: Entry)
    requires m.queue != [] && m.delivered + m.queue == m.added
    ensures var n := Dequeued(m, t, e); n.delivered + n.queue == n.added <==> m.queue[0] == e
  {
    assert m.added[|m.delivered|] == m.queue[0];
    assert m.delivered + [m.queue[0]] + m.queue[1..] == m.added;
    var n := Dequeued(m, t, e);
    assert (n.delivered + n.queue)[|m.delivered|] == e;
  }

  /**
   * The entry a consumer read at the head is still the head when it takes the head out, however long it waited
   * for the sender's mutex.
   */
  lemma ReadStaysFirst(run: seq<State>, actions: seq<Action>, i: nat, t: Thread)
    requires IsRun(run, actions) && i < |run| && t in run[i].pcs
    requires run[i].pcs[t].NextUnrefLock? || run[i].pcs[t].NextUnrefUnlock? || run[i].pcs[t].NextDequeue?
    ensures var pc := run[i].pcs[t];
            pc.mb in run[i].boxes && run[i].boxes[pc.mb].queue != [] && run[i].boxes[pc.mb].queue[0] == pc.entry
  {
    RunInv(run, actions, i);
    InvThread(run[i], t);
  }

  /**
   * First in, first out, in every state of every run: what consumers were given, as they read it, then what
   * is queued, is what was added.
   */
  lemma FifoAlways(run: seq<State>, actions: seq<Action>, i: nat, b: Id)
    requires IsRun(run, actions) && i < |run| && b in run[i].boxes
    ensures run[i].boxes[b].delivered + run[i].boxes[b].queue == run[i].boxes[b].added
  {
    RunInv(run, actions, i);
    InvBox(run[i], b);
  }

  /**
   * The items semaphore and the consumers past it account for the queue, but for an entry about to be posted
   * and for shutdowns.
   */
  lemma ItemsAlways(run: seq<State>, actions: seq<Action>, i: nat, b: Id)
    requires IsRun(run, actions) && i < |run| && b in run[i].boxes
    ensures var m := run[i].boxes[b];
            && (m.owner == Free ==> m.items + |m.past| == |m.queue| + m.alarms)
            && (!m.defunct ==> m.alarms == 0)
  {
    RunInv(run, actions, i);
    InvBox(run[i], b);
  }

  /** Two threads never hold the same mutex. */
  lemma MutualExclusion(run: seq<State>, actions: seq<Action>, i: nat, t: Thread, u: Thread, b: Id)
    requires IsRun(run, actions) && i < |run| && t in run[i].pcs && u in run[i].pcs
    requires b in Locks(run[i].pcs[t]) && b in Locks(run[i].pcs[u])
    ensures t == u
  {
    RunInv(run, actions, i);
    LockIsOwner(run[i], t, b);
    LockIsOwner(run[i], u, b);
  }
}

/**
 * What jobs and printers come to over whole runs of the spooler, told from the commands and from what the
 * system reports of processes alone (hw4/src/cli.c, hw4/include/helpingFunction.h).
 */
module SpoolHistory {
  import opened SpoolModel

  // ---- runs ----

  /** Commands, scans and reports in any order, from the empty tables on. */
  ghost predicate IsRun(states: seq<Spool>, events: seq<Event>) {
    IsHistory(states, events) && states[0] == Initial()
  }

  lemma {:induction false} RunInOrder(states: seq<Spool>, events: seq<Event>, k: nat)
    requires IsRun(states, events) && k < |states|
    ensures Inv(states[k])
  {
    if k == 0 {
      ghost var start := Start();
    } else {
      RunInOrder(states, events, k - 1);
      StepKeeps(states[k - 1], events[k - 1]);
    }
  }

  lemma RunStep(states: seq<Spool>, events: seq<Event>, k: nat)
    requires IsRun(states, events) && k < |events|
    ensures |states| == |events| + 1
    ensures Inv(states[k]) && Possible(states[k], events[k]) && SearchesSucceed(states[k], events[k])
    ensures states[k + 1] == Step(states[k], events[k]) && Inv(states[k + 1])
  {
    RunInOrder(states, events, k);
    RunInOrder(states, events, k + 1);
  }

  /** The states on the way of a run. */
  lemma {:induction false} RunHasHistory(s: Spool, events: seq<Event>) returns (states: seq<Spool>)
    requires Inv(s) && Run(s, events).Reached?
    ensures IsHistory(states, events) && states[0] == s && states[|events|] == Run(s, events).spool
    decreases |events|
  {
    states := [s];
    if events != [] {
      StepKeeps(s, events[0]);
      var rest := RunHasHistory(After(s, events[0]), events[1..]);
      states := [s] + rest;
      InvSized(s);
      assert forall k :: 0 < k < |events| ==> states[k] == rest[k - 1] && events[k] == events[1..][k - 1];
    }
  }

  // ---- what the system can report of the process of a slot ----

  predicate StopOf(e: Event, p: int) { e.Child? && e.pid == p && e.how == Stopped }

  predicate ContinueOf(e: Event, p: int) { e.Child? && e.pid == p && e.how == Continued }

  /** The process exited, was killed by a signal, or ended in some other way. */
  predicate EndOf(e: Event, p: int) { e.Child? && e.pid == p && e.how != Stopped && e.how != Continued }

  predicate HasEnded(j: Job) { j.status == FINISHED || j.status == ABORTED }

  // ---- one step, seen from one slot or one printer ----

  lemma {:induction false} ScanOnSlot(s: Spool, i: nat, suits: (int, int) -> bool, pids: seq<int>, j: nat)
    requires Sized(s) && i <= MAX_JOBS == |pids| && j < MAX_JOBS
    ensures var n := ScannedFrom(s, i, suits, pids);
            || (n.jobs[j] == s.jobs[j] && n.masters[j] == s.masters[j])
            || (i <= j && Waiting(s.jobs[j]) && n.jobs[j] == s.jobs[j].(status := RUNNING) && n.masters[j] == pids[j])
    decreases MAX_JOBS - i
  {
    if i < MAX_JOBS { ScanOnSlot(Scanned(s, i, suits, pids[i]), i + 1, suits, pids, j); }
  }

  /** A scan changes a printer only by giving it, idle and without a job, a job it suits. */
  lemma {:induction false} ScanOnPrinter(s: Spool, i: nat, suits: (int, int) -> bool, pids: seq<int>, k: nat)
    requires Sized(s) && i <= MAX_JOBS == |pids| && k < |s.printers|
    ensures var n := ScannedFrom(s, i, suits, pids);
            && |n.printers| == |s.printers|
            && (n.printers[k] != s.printers[k] ==>
                  var p := n.printers[k];
                  && s.printers[k].status == IDLE && s.printers[k].jobIndex == -1 && p.status == BUSY
                  && i <= p.jobIndex < MAX_JOBS && suits(p.jobIndex, k) && Waiting(s.jobs[p.jobIndex])
                  && n.jobs[p.jobIndex].status == RUNNING)
    decreases MAX_JOBS - i
  {
    if i < MAX_JOBS {
      var n := Scanned(s, i, suits, pids[i]);
      ScanOnPrinter(n, i + 1, suits, pids, k);
      ScanLeaves(n, i + 1, suits, pids, i, k);
    }
  }

  /**
   * A job that a scan starts runs on a printer that suits it and was idle without a job, as the process forked
   * for it.
   */
  lemma StartedOnSuitable(s: Spool, suits: (int, int) -> bool, pids: seq<int>, i: nat)
    requires Inv(s) && Possible(s, Scan(suits, pids)) && i < MAX_JOBS && Waiting(s.jobs[i])
    ensures var n := Step(s, Scan(suits, pids));
            n.jobs[i] != s.jobs[i] ==>
              && n.jobs[i] == s.jobs[i].(status := RUNNING) && n.masters[i] == pids[i] && pids[i] in n.procs
              && exists k :: HoldsJob(n, k, i) && |s.printers| == |n.printers| && n.printers[k].status == BUSY
                  && suits(i, k) && s.printers[k].status == IDLE && s.printers[k].jobIndex == -1
  {
    var n := Step(s, Scan(suits, pids));
    StepKeeps(s, Scan(suits, pids));
    ScanOnSlot(s, 0, suits, pids, i);
    if n.jobs[i] != s.jobs[i] {
      ActiveIffHeld(n, i);
      ActiveLives(n, i);
      HoldsNothing(s, i);
      var k :| HoldsJob(n, k, i);
      ScanSize(s, 0, suits, pids);
      ScanOnPrinter(s, 0, suits, pids, k);
    }
  }

  /** What a report makes of each slot, of each printer, and of the count. */
  lemma ReportStep(s: Spool, p: int, how: Report, now: int, i: nat, k: nat)
    requires Inv(s) && p in s.procs && SearchesSucceed(s, Child(p, how, now)) && i < MAX_JOBS && k < |s.printers|
    ensures var n := Reported(s, p, how, now);
            var mine, ends := s.masters[i] == p && IsActive(s.jobs[i]), how != Stopped && how != Continued;
            && |n.jobs| == MAX_JOBS && n.masters == s.masters && |n.printers| == |s.printers|
            && (!mine ==> n.jobs[i] == s.jobs[i])
            && (mine && how == Stopped ==> n.jobs[i] == s.jobs[i].(status := PAUSED))
            && (mine && how == Continued ==> n.jobs[i] == s.jobs[i].(status := RUNNING))
            && (mine && how == Exited ==> n.jobs[i] == s.jobs[i].(status := FINISHED, since := now))
            && (mine && how != Exited && ends ==> n.jobs[i] == s.jobs[i].(status := ABORTED, since := now))
            && (mine && ends && s.printers[k].jobIndex == i ==>
                  n.printers[k] == Printer(if s.printers[k].status == DISABLED then DISABLED else IDLE, -1))
            && (!ends || (mine && s.printers[k].jobIndex != i) ==> n.printers[k] == s.printers[k])
            && n.children == s.children - (if ends then 1 else 0)
  {
    LookupsSucceed(s, p);
    ActiveIffHeld(s, s.procs[p]);
    if s.masters[i] == p && IsActive(s.jobs[i]) { assert JobOk(s, i); }
    var l := FindPrinter(s.printers, s.procs[p]);
    if s.printers[k].jobIndex == s.procs[p] { assert HoldsJob(s, k, s.procs[p]) && HoldsJob(s, l, s.procs[p]); }
  }

  /**
   * How a report of process `p` shows in the tables: the job of the process is paused, running, finished or
   * aborted, and remembers the time if the process ended. Then the printer that held the job is left without
   * one, disabled if it was and idle if not. Everything else stays.
   */
  ghost predicate ReportShows(s: Spool, p: int, how: Report, now: int, n: Spool) {
    && Sized(s) && Sized(n) && |n.printers| == |s.printers| && p in s.procs && 0 <= s.procs[p] < MAX_JOBS
    && var i, j := s.procs[p], s.jobs[s.procs[p]];
    && (how == Stopped ==> n.jobs[i] == Job(j.document, PAUSED, j.taken, j.since))
    && (how == Continued ==> n.jobs[i] == Job(j.document, RUNNING, j.taken, j.since))
    && (how == Exited ==> n.jobs[i] == Job(j.document, FINISHED, j.taken, now))
    && (how == Signaled || how == Other ==> n.jobs[i] == Job(j.document, ABORTED, j.taken, now))
    && (forall l :: 0 <= l < MAX_JOBS && l != i ==> n.jobs[l] == s.jobs[l])
    && (forall k :: 0 <= k < |s.printers| ==>
          n.printers[k] ==
            if how == Stopped || how == Continued || s.printers[k].jobIndex != i then s.printers[k]
            else if s.printers[k].status == DISABLED then Printer(DISABLED, -1)
            else Printer(IDLE, -1))
  }

  lemma ReportOnTables(s: Spool, p: int, how: Report, now: int)
    requires Inv(s) && p in s.procs && SearchesSucceed(s, Child(p, how, now))
    ensures ReportShows(s, p, how, now, Reported(s, p, how, now))
  {
    LookupsSucceed(s, p);
    var i, n := s.procs[p], Reported(s, p, how, now);
    ReportStep(s, p, how, now, i, FindPrinter(s.printers, i));
    forall k | 0 <= k < |s.printers|
      ensures n.printers[k] == if how == Stopped || how == Continued || s.printers[k].jobIndex != i then s.printers[k]
                else Printer(if s.printers[k].status == DISABLED then DISABLED else IDLE, -1)
    {
      ReportStep(s, p, how, now, i, k);
    }
  }

  /** A job goes on until its process is reported to have ended; stops and continuations show in its status. */
  lemma ActiveStep(s: Spool, e: Event, i: nat)
    requires Inv(s) && Possible(s, e) && SearchesSucceed(s, e) && i < MAX_JOBS && IsActive(s.jobs[i])
    ensures var n, p := Step(s, e), s.masters[i];
            && n.masters[i] == p && n.jobs[i].document == s.jobs[i].document
            && (IsActive(n.jobs[i]) <==> !EndOf(e, p))
            && (StopOf(e, p) ==> n.jobs[i].status == PAUSED) && (ContinueOf(e, p) ==> n.jobs[i].status == RUNNING)
            && (!e.Child? || e.pid != p ==> n.jobs[i].status == s.jobs[i].status)
  {
    InvSized(s);
    hide Inv;
    match e
    case Print(d) => SubmittedInv(s, d);
    case Scan(suits, pids) => ScanOnSlot(s, 0, suits, pids, i);
    case Child(q, how, now) =>
      ActiveIffHeld(s, i);
      var k :| HoldsJob(s, k, i);
      ReportStep(s, q, how, now, i, k);
    case _ =>
  }

  /** A slot that is not active is only changed by taking a new job, by being started, or by being given up. */
  lemma InactiveStep(s: Spool, e: Event, i: nat)
    requires Inv(s) && Possible(s, e) && SearchesSucceed(s, e) && i < MAX_JOBS && !IsActive(s.jobs[i])
    ensures var n, j := Step(s, e), s.jobs[i];
            || n.jobs[i] == j
            || (e.Print? && (!j.taken || j.status == DELETED) && n.jobs[i] == Job(e.document, CREATED, true, -1))
            || (e.Scan? && Waiting(j) && n.jobs[i] == j.(status := RUNNING) && n.masters[i] == e.pids[i])
            || (e.Sweep? && HasEnded(j) && e.now - j.since >= 10 && n.jobs[i] == j.(taken := false, status := DELETED))
    ensures e.Sweep? && HasEnded(s.jobs[i]) && e.now - s.jobs[i].since >= 10 ==> Step(s, e).jobs[i] != s.jobs[i]
  {
    InvSized(s);
    hide Inv;
    match e
    case Scan(suits, pids) => ScanOnSlot(s, 0, suits, pids, i);
    case Child(q, how, now) => ReportElsewhere(s, q, how, now, i);
    case _ =>
  }

  lemma ReportElsewhere(s: Spool, p: int, how: Report, now: int, i: nat)
    requires Inv(s) && p in s.procs && SearchesSucceed(s, Child(p, how, now)) && i < MAX_JOBS && !IsActive(s.jobs[i])
    ensures Reported(s, p, how, now).jobs[i] == s.jobs[i]
  {
    LookupsSucceed(s, p);
  }

  // ---- a job from its start to its end ----

  /** The job in slot `i` was started by event `m` and has been active ever since, up to state `n`. */
  ghost predicate ActiveSince(states: seq<Spool>, m: nat, n: nat, i: nat) {
    && m < n < |states| && i < MAX_JOBS && (forall k :: m <= k <= n ==> Sized(states[k]))
    && !IsActive(states[m].jobs[i]) && (forall k :: m < k <= n ==> IsActive(states[k].jobs[i]))
  }

  /** Its process was stopped, and not continued since. */
  ghost predicate LastStopped(events: seq<Event>, m: nat, n: nat, p: int)
    requires m < n <= |events|
  {
    exists k :: m < k < n && StopOf(events[k], p) && forall l :: k < l < n ==> !ContinueOf(events[l], p)
  }

  /**
   * Over every run: an active job was started by a scan, keeps its document and its process, and is paused if
   * and only if the last stop or continuation reported of its process since its start is a stop. Otherwise
   * it is running.
   */
  lemma PausedIffStopped(states: seq<Spool>, events: seq<Event>, m: nat, n: nat, i: nat)
    requires IsRun(states, events) && ActiveSince(states, m, n, i)
    ensures |states| == |events| + 1
    ensures events[m].Scan? && |events[m].pids| == MAX_JOBS && Waiting(states[m].jobs[i])
    ensures states[n].masters[i] == events[m].pids[i]
    ensures states[n].jobs[i].document == states[m].jobs[i].document
    ensures states[n].jobs[i].status == PAUSED <==> LastStopped(events, m, n, states[n].masters[i])
    ensures states[n].jobs[i].status == RUNNING <==> !LastStopped(events, m, n, states[n].masters[i])
  {
    StartedBy(states, events, m, i);
    StatusShows(states, events, m, n, i);
  }

  lemma {:induction false} StatusShows(states: seq<Spool>, events: seq<Event>, m: nat, n: nat, i: nat)
    requires IsRun(states, events) && |events| == |states| - 1 && ActiveSince(states, m, n, i)
    ensures var j, p := states[n].jobs[i], states[n].masters[i];
            && p == states[m + 1].masters[i] && j.document == states[m + 1].jobs[i].document
            && (j.status == PAUSED <==> LastStopped(events, m, n, p))
    decreases n
  {
    hide LastStopped, IsRun, IsActive;
    if n == m + 1 {
      StartedBy(states, events, m, i);
      NoReport(events, m, states[n].masters[i]);
    } else {
      GoesOn(states, events, n - 1, i);
      StatusShows(states, events, m, n - 1, i);
      OneMoreReport(events, m, n, states[n].masters[i]);
    }
  }

  lemma NoReport(events: seq<Event>, m: nat, p: int)
    requires m < |events|
    ensures !LastStopped(events, m, m + 1, p)
  {
  }

  lemma StartedBy(states: seq<Spool>, events: seq<Event>, m: nat, i: nat)
    requires IsRun(states, events) && m < |events| == |states| - 1 && i < MAX_JOBS
    requires Sized(states[m]) && Sized(states[m + 1]) && !IsActive(states[m].jobs[i]) && IsActive(states[m + 1].jobs[i])
    ensures events[m].Scan? && |events[m].pids| == MAX_JOBS && Waiting(states[m].jobs[i])
    ensures states[m + 1].jobs[i] == states[m].jobs[i].(status := RUNNING)
    ensures states[m + 1].masters[i] == events[m].pids[i]
  {
    RunStep(states, events, m);
    hide IsRun;
    InactiveStep(states[m], events[m], i);
  }

  lemma GoesOn(states: seq<Spool>, events: seq<Event>, m: nat, i: nat)
    requires IsRun(states, events) && m < |events| == |states| - 1 && i < MAX_JOBS
    requires Sized(states[m]) && Sized(states[m + 1]) && IsActive(states[m].jobs[i]) && IsActive(states[m + 1].jobs[i])
    ensures var s, n, e := states[m], states[m + 1], events[m];
            && n.masters[i] == s.masters[i] && n.jobs[i].document == s.jobs[i].document
            && (n.jobs[i].status == PAUSED <==>
                  StopOf(e, s.masters[i]) || (!ContinueOf(e, s.masters[i]) && s.jobs[i].status == PAUSED))
  {
    RunStep(states, events, m);
    hide IsRun;
    ActiveStep(states[m], events[m], i);
  }

  /** How the last report counts. */
  lemma OneMoreReport(events: seq<Event>, m: nat, n: nat, p: int)
    requires m + 1 < n <= |events|
    ensures var e := events[n - 1];
            LastStopped(events, m, n, p) <==>
              StopOf(e, p) || (!ContinueOf(e, p) && LastStopped(events, m, n - 1, p))
  {
    var e := events[n - 1];
    if LastStopped(events, m, n, p) {
      var k :| m < k < n && StopOf(events[k], p) && forall l :: k < l < n ==> !ContinueOf(events[l], p);
      assert k == n - 1 || k < n - 1;
    }
    if !ContinueOf(e, p) && LastStopped(events, m, n - 1, p) {
      var k :| m < k < n - 1 && StopOf(events[k], p) && forall l :: k < l < n - 1 ==> !ContinueOf(events[l], p);
      assert forall l :: k < l < n ==> !ContinueOf(events[l], p);
    }
  }

  /** Every active job has such a start. */
  lemma {:induction false} WasStarted(states: seq<Spool>, events: seq<Event>, n: nat, i: nat) returns (m: nat)
    requires IsRun(states, events) && n < |states| && i < MAX_JOBS && Sized(states[n]) && IsActive(states[n].jobs[i])
    ensures ActiveSince(states, m, n, i)
  {
    RunInOrder(states, events, n);
    m := n - 1;
    RunStep(states, events, m);
    if IsActive(states[m].jobs[i]) { m := WasStarted(states, events, n - 1, i); }
  }

  /** Event `m` is the report that the process of the active slot `i` ended. */
  ghost predicate EndsJob(states: seq<Spool>, events: seq<Event>, m: nat, i: nat) {
    && m < |events| == |states| - 1 && i < MAX_JOBS && Sized(states[m])
    && IsActive(states[m].jobs[i]) && EndOf(events[m], states[m].masters[i])
  }

  /**
   * Over every run: a job stops being active exactly by the report that its process ended. It is finished if and
   * only if the process exited, aborted otherwise, and remembers the time of the report. Its printer is left
   * without a job, disabled if it was and idle if not; all other slots and printers stay as they are.
   */
  lemma EndedByReport(states: seq<Spool>, events: seq<Event>, m: nat, i: nat)
    requires IsRun(states, events) && m < |events| && i < MAX_JOBS
    requires Sized(states[m]) && IsActive(states[m].jobs[i])
    ensures |states| == |events| + 1 && Sized(states[m + 1])
    ensures EndsJob(states, events, m, i) <==> !IsActive(states[m + 1].jobs[i])
    ensures var s, n, e := states[m], states[m + 1], events[m];
            EndsJob(states, events, m, i) ==>
              && n.jobs[i] == s.jobs[i].(status := if e.how == Exited then FINISHED else ABORTED, since := e.now)
              && (forall j :: 0 <= j < MAX_JOBS && j != i ==> n.jobs[j] == s.jobs[j])
              && |n.printers| == |s.printers|
              && (forall k :: 0 <= k < |s.printers| ==>
                    n.printers[k] == if s.printers[k].jobIndex != i then s.printers[k]
                      else if s.printers[k].status == DISABLED then Printer(DISABLED, -1) else Printer(IDLE, -1))
  {
    RunStep(states, events, m);
    var s, e := states[m], events[m];
    ActiveStep(s, e, i);
    if EndOf(e, s.masters[i]) { EndingStep(s, e, i); }
  }

  lemma EndingStep(s: Spool, e: Event, i: nat)
    requires Inv(s) && Possible(s, e) && SearchesSucceed(s, e) && i < MAX_JOBS && IsActive(s.jobs[i])
    requires EndOf(e, s.masters[i])
    ensures var n := Step(s, e);
            && n.jobs[i] == s.jobs[i].(status := if e.how == Exited then FINISHED else ABORTED, since := e.now)
            && (forall j :: 0 <= j < MAX_JOBS && j != i ==> n.jobs[j] == s.jobs[j])
            && |n.printers| == |s.printers|
            && (forall k :: 0 <= k < |s.printers| ==>
                  n.printers[k] == if s.printers[k].jobIndex != i then s.printers[k]
                    else if s.printers[k].status == DISABLED then Printer(DISABLED, -1) else Printer(IDLE, -1))
  {
    assert JobOk(s, i);
    ReportOnTables(s, e.pid, e.how, e.now);
  }

  // ---- after the end ----

  /** No sweep after event `m` and before event `n` comes ten seconds or more after time `ended`. */
  ghost predicate SweptEarly(events: seq<Event>, m: nat, n: nat, ended: int)
    requires n <= |events|
  {
    forall k :: m < k < n && events[k].Sweep? ==> events[k].now - ended < 10
  }

  /**
   * Over every run: whatever else happens, a job that has ended stays in its slot until the first sweep that
   * comes at least ten seconds after the report of the end. That sweep gives the slot up.
   */
  lemma {:induction false} KeptTenSeconds(states: seq<Spool>, events: seq<Event>, m: nat, n: nat, i: nat)
    requires IsRun(states, events) && EndsJob(states, events, m, i) && m < n < |events|
    requires SweptEarly(events, m, n, events[m].now)
    ensures Sized(states[m + 1]) && Sized(states[n]) && Sized(states[n + 1])
    ensures states[n].jobs[i] == states[m + 1].jobs[i]
    ensures var late := events[n].Sweep? && events[n].now - events[m].now >= 10;
            states[n + 1].jobs[i] ==
              if late then states[m + 1].jobs[i].(taken := false, status := DELETED) else states[m + 1].jobs[i]
    decreases n
  {
    EndedByReport(states, events, m, i);
    RunStep(states, events, n);
    hide IsRun, Inv, Step, Possible, SearchesSucceed;
    if n > m + 1 { KeptTenSeconds(states, events, m, n - 1, i); }
    InactiveStep(states[n], events[n], i);
  }

  /** Over every run: a slot with a finished or aborted job has been through such an end, and was kept since. */
  lemma {:induction false} WasEnded(states: seq<Spool>, events: seq<Event>, n: nat, i: nat) returns (m: nat)
    requires IsRun(states, events) && n < |states| && i < MAX_JOBS && Sized(states[n]) && HasEnded(states[n].jobs[i])
    ensures |states| == |events| + 1 && m < n && EndsJob(states, events, m, i) && Sized(states[m])
    ensures states[n].jobs[i].document == states[m].jobs[i].document
    ensures states[n].jobs[i].status == FINISHED <==> events[m].how == Exited
    ensures states[n].jobs[i].since == events[m].now
    ensures SweptEarly(events, m, n, events[m].now)
  {
    m := n - 1;
    RunStep(states, events, m);
    if IsActive(states[m].jobs[i]) {
      EndedByReport(states, events, m, i);
    } else {
      StaysEnded(states, events, m, i);
      hide IsRun, IsActive, Step, Possible, SearchesSucceed;
      m := WasEnded(states, events, n - 1, i);
    }
  }

  lemma StaysEnded(states: seq<Spool>, events: seq<Event>, m: nat, i: nat)
    requires IsRun(states, events) && m < |events| == |states| - 1 && i < MAX_JOBS
    requires Sized(states[m]) && !IsActive(states[m].jobs[i]) && Sized(states[m + 1]) && HasEnded(states[m + 1].jobs[i])
    ensures states[m + 1].jobs[i] == states[m].jobs[i]
    ensures events[m].Sweep? ==> events[m].now - states[m].jobs[i].since < 10
  {
    RunStep(states, events, m);
    hide IsRun;
    InactiveStep(states[m], events[m], i);
  }

  /** No sweep touches a job that waits, runs or is paused, nor a printer or a process. */
  lemma SweepSpares(s: Spool, now: int, i: nat)
    requires Sized(s) && i < MAX_JOBS
    ensures var n := Step(s, Sweep(now));
            && n.printers == s.printers && n.masters == s.masters && n.procs == s.procs && n.children == s.children
            && (Waiting(s.jobs[i]) || IsActive(s.jobs[i]) ==> n.jobs[i] == s.jobs[i])
  {
  }

  // ---- printers ----

  predicate EnableOf(e: Event, k: nat) { e.Enable? && e.printer == k }

  predicate DisableOf(e: Event, k: nat) { e.Disable? && e.printer == k }

  /** Printer `k` was enabled at least once, and not disabled since. */
  ghost predicate LastEnabled(events: seq<Event>, n: nat, k: nat)
    requires n <= |events|
  {
    exists l :: 0 <= l < n && EnableOf(events[l], k) && forall o :: l < o < n ==> !DisableOf(events[o], k)
  }

  /** What an event makes of a printer. */
  lemma PrinterStep(s: Spool, e: Event, k: nat)
    requires Inv(s) && Possible(s, e) && SearchesSucceed(s, e) && k < |s.printers|
    ensures var n, p := Step(s, e), s.printers[k];
            && |n.printers| == |s.printers| + (if e.DefinePrinter? && |s.printers| < 32 then 1 else 0)
            && (EnableOf(e, k) ==> n.printers[k] == p.(status := IDLE))
            && (DisableOf(e, k) ==> n.printers[k] == p.(status := DISABLED))
            && (!EnableOf(e, k) && !DisableOf(e, k) && n.printers[k] != p ==>
                  || (p == Printer(IDLE, -1) && n.printers[k].status == BUSY && e.Scan?)
                  || (n.printers[k] == Printer(if p.status == DISABLED then DISABLED else IDLE, -1) && e.Child?))
  {
    InvSized(s);
    hide Inv;
    match e
    case Scan(suits, pids) => ScanOnPrinter(s, 0, suits, pids, k);
    case Child(q, how, now) => ReportOnPrinter(s, q, how, now, k);
    case _ =>
  }

  lemma ReportOnPrinter(s: Spool, p: int, how: Report, now: int, k: nat)
    requires Inv(s) && p in s.procs && SearchesSucceed(s, Child(p, how, now)) && k < |s.printers|
    ensures var n := Reported(s, p, how, now);
            && |n.printers| == |s.printers|
            && (n.printers[k] != s.printers[k] ==>
                  n.printers[k] == Printer(if s.printers[k].status == DISABLED then DISABLED else IDLE, -1))
  {
    LookupsSucceed(s, p);
    var i := s.procs[p];
    assert JobOk(s, i);
    ReportStep(s, p, how, now, i, k);
  }

  /** A new printer is disabled. */
  lemma NewPrinter(s: Spool, e: Event)
    requires Inv(s) && Possible(s, e) && SearchesSucceed(s, e)
    ensures var n := Step(s, e);
            && |s.printers| <= |n.printers| <= |s.printers| + 1
            && (|n.printers| > |s.printers| ==> e.DefinePrinter? && n.printers[|s.printers|] == Printer(DISABLED, -1))
  {
    InvSized(s);
    hide Inv;
    match e
    case Scan(suits, pids) => ScanSize(s, 0, suits, pids);
    case Child(q, how, now) => LookupsSucceed(s, q);
    case _ =>
  }

  lemma {:induction false} ScanSize(s: Spool, i: nat, suits: (int, int) -> bool, pids: seq<int>)
    requires Sized(s) && i <= MAX_JOBS == |pids|
    ensures |ScannedFrom(s, i, suits, pids).printers| == |s.printers|
    decreases MAX_JOBS - i
  {
    if i < MAX_JOBS { ScanSize(Scanned(s, i, suits, pids[i]), i + 1, suits, pids); }
  }

  /**
   * Over every run: whatever jobs it is given and whatever becomes of them, a printer is disabled unless it has
   * been enabled and not disabled since.
   */
  lemma {:induction false} DisabledIffToldSo(states: seq<Spool>, events: seq<Event>, n: nat, k: nat)
    requires IsRun(states, events) && n < |states| && k < |states[n].printers|
    ensures |states| == |events| + 1
    ensures states[n].printers[k].status == DISABLED <==> !LastEnabled(events, n, k)
  {
    if n > 0 {
      RunStep(states, events, n - 1);
      var s, e := states[n - 1], events[n - 1];
      NewPrinter(s, e);
      OneMoreSwitch(events, n, k);
      if k < |s.printers| {
        PrinterStep(s, e, k);
        hide IsRun, Inv, Step, Possible, SearchesSucceed, LastEnabled;
        DisabledIffToldSo(states, events, n - 1, k);
      } else {
        NotYetEnabled(states, events, n - 1, k);
        hide IsRun, Inv, Step, Possible, SearchesSucceed, LastEnabled;
      }
    }
  }

  lemma OneMoreSwitch(events: seq<Event>, n: nat, k: nat)
    requires 0 < n <= |events|
    ensures var e := events[n - 1];
            LastEnabled(events, n, k) <==> EnableOf(e, k) || (!DisableOf(e, k) && LastEnabled(events, n - 1, k))
  {
    var e := events[n - 1];
    if LastEnabled(events, n, k) {
      var l :| 0 <= l < n && EnableOf(events[l], k) && forall o :: l < o < n ==> !DisableOf(events[o], k);
      assert l == n - 1 || l < n - 1;
    }
    if !DisableOf(e, k) && LastEnabled(events, n - 1, k) {
      var l :| 0 <= l < n - 1 && EnableOf(events[l], k) && forall o :: l < o < n - 1 ==> !DisableOf(events[o], k);
      assert forall o :: l < o < n ==> !DisableOf(events[o], k);
    }
  }

  /** Printers are never taken away, and only those defined before can be enabled. */
  lemma {:induction false} NotYetEnabled(states: seq<Spool>, events: seq<Event>, n: nat, k: nat)
    requires IsRun(states, events) && n < |states| == |events| + 1 && k >= |states[n].printers|
    ensures forall l :: 0 <= l < n ==> !EnableOf(events[l], k)
  {
    if n > 0 {
      RunStep(states, events, n - 1);
      NewPrinter(states[n - 1], events[n - 1]);
      NotYetEnabled(states, events, n - 1, k);
    }
  }
}

/**
 * The print spooler of hw4 as a state machine: jobs, printers and master processes, driven by
 * commands, by the scan for jobs that can start, and by what the system reports of child processes
 * (hw4/src/cli.c, hw4/include/helpingFunction.h).
 */
module SpoolModel {
  const MAX_JOBS := 64
  const MAX_PRINTERS := 32

  datatype JobStatus = CREATED | RUNNING | PAUSED | FINISHED | ABORTED | DELETED
  datatype PrinterStatus = DISABLED | IDLE | BUSY

  /** `document` stands for the file, its type and the set of eligible printers; `since` is the time the job ended. */
  datatype Job = Job(document: int, status: JobStatus, taken: bool, since: int)

  /** `jobIndex` is -1 for a printer without a job. */
  datatype Printer = Printer(status: PrinterStatus, jobIndex: int)

  /**
   * `masters[i]` is the last process started for job slot `i`; `children` is the source's count of them.
   * `procs` is the system's side: the processes not reported dead yet, and the slot each was started for.
   */
  datatype Spool = Spool(jobs: seq<Job>, printers: seq<Printer>, masters: seq<int>, children: int, procs: map<int, int>)

  predicate IsActive(j: Job) { j.taken && (j.status == RUNNING || j.status == PAUSED) }

  function ActiveCount(jobs: seq<Job>): nat {
    if jobs == [] then 0 else (if IsActive(jobs[0]) then 1 else 0) + ActiveCount(jobs[1..])
  }

  /** Printer `k` holds job `i`. */
  predicate HoldsJob(s: Spool, k: int, i: int) { 0 <= k < |s.printers| && s.printers[k].jobIndex == i }

  ghost predicate Inv(s: Spool) {
    && |s.jobs| == MAX_JOBS && |s.masters| == MAX_JOBS && |s.printers| <= MAX_PRINTERS
    && s.children == ActiveCount(s.jobs)
    && (forall k :: 0 <= k < |s.printers| ==> PrinterOk(s, k))
    && (forall k, l :: 0 <= k < l < |s.printers| && s.printers[k].jobIndex != -1 ==>
       s.printers[k].jobIndex != s.printers[l].jobIndex)
    && (forall i :: 0 <= i < MAX_JOBS && IsActive(s.jobs[i]) ==> JobOk(s, i))
    && (forall p :: p in s.procs ==>
       0 <= s.procs[p] < MAX_JOBS && IsActive(s.jobs[s.procs[p]]) && s.masters[s.procs[p]] == p)
  }

  /** A printer holds an active job or none; a busy one holds a job. */
  ghost predicate PrinterOk(s: Spool, k: int)
    requires |s.jobs| == MAX_JOBS && 0 <= k < |s.printers|
  {
    var p := s.printers[k];
    && (p.jobIndex != -1 ==> 0 <= p.jobIndex < MAX_JOBS && IsActive(s.jobs[p.jobIndex]))
    && (p.status == BUSY ==> p.jobIndex != -1)
  }

  /** No slot before `i` remembers a process of number `p`; what a later slot remembers does not matter. */
  predicate NotBefore(masters: seq<int>, i: int, p: int)
    requires i <= |masters|
  {
    forall l :: 0 <= l < i ==> masters[l] != p
  }

  /** An active job is on some printer, its process lives, and is not mistaken for that of an earlier slot. */
  ghost predicate JobOk(s: Spool, i: int)
    requires |s.masters| == MAX_JOBS && 0 <= i < MAX_JOBS
  {
    && (exists k :: HoldsJob(s, k, i))
    && s.masters[i] in s.procs && s.procs[s.masters[i]] == i
    && NotBefore(s.masters, i, s.masters[i])
  }

  /** A job runs or is paused if and only if exactly one printer holds it. */
  lemma ActiveIffHeld(s: Spool, i: int)
    requires Inv(s) && 0 <= i < MAX_JOBS
    ensures IsActive(s.jobs[i]) <==> exists k :: HoldsJob(s, k, i)
    ensures forall k, l :: HoldsJob(s, k, i) && HoldsJob(s, l, i) ==> k == l
  {
    if IsActive(s.jobs[i]) { assert JobOk(s, i); }
    if k :| HoldsJob(s, k, i) { assert PrinterOk(s, k); }
    forall k, l | HoldsJob(s, k, i) && HoldsJob(s, l, i)
      ensures k == l
    {
      assert k < l || l < k || k == l;
    }
  }

  // ---- the count of active jobs ----

  lemma {:induction false} CountUpdate(jobs: seq<Job>, i: nat, j: Job)
    requires i < |jobs|
    ensures ActiveCount(jobs[i := j]) ==
            ActiveCount(jobs) - (if IsActive(jobs[i]) then 1 else 0) + (if IsActive(j) then 1 else 0)
  {
    if i > 0 {
      CountUpdate(jobs[1..], i - 1, j);
      assert jobs[i := j][1..] == jobs[1..][i - 1 := j];
    } else {
      assert jobs[0 := j][1..] == jobs[1..];
    }
  }

  lemma {:induction false} CountZero(jobs: seq<Job>)
    ensures ActiveCount(jobs) == 0 <==> forall i :: 0 <= i < |jobs| ==> !IsActive(jobs[i])
  {
    if jobs != [] {
      CountZero(jobs[1..]);
      assert jobs == [jobs[0]] + jobs[1..];
      assert forall i :: 0 <= i < |jobs| - 1 ==> jobs[1..][i] == jobs[i + 1];
      if ActiveCount(jobs) == 0 {
        forall i | 0 <= i < |jobs|
          ensures !IsActive(jobs[i])
        {
          if i > 0 { assert jobs[i] == jobs[1..][i - 1]; }
        }
      }
    }
  }

  /** Quitting waits while `masterChildCount` is not 0: that is exactly while some job runs or is paused. */
  lemma QuitWaits(s: Spool)
    requires Inv(s)
    ensures s.children == 0 <==> forall i :: 0 <= i < MAX_JOBS ==> !IsActive(s.jobs[i])
    ensures s.children == 0 ==> s.procs == map[] && forall k :: 0 <= k < |s.printers| ==> s.printers[k].jobIndex == -1
  {
    CountZero(s.jobs);
    if s.children == 0 {
      forall k | 0 <= k < |s.printers|
        ensures s.printers[k].jobIndex == -1
      {
        assert PrinterOk(s, k);
      }
      assert forall p :: p !in s.procs;
    }
  }

  // ---- searches ----

  /** The first slot that remembers process `p`, the number of slots if there is none. */
  function FindJob(masters: seq<int>, p: int): (i: nat)
    ensures i <= |masters| && (i < |masters| ==> masters[i] == p)
    ensures forall j :: 0 <= j < i ==> masters[j] != p
  {
    if masters == [] || masters[0] == p then 0 else 1 + FindJob(masters[1..], p)
  }

  /** The first printer that holds job `i`. */
  function FindPrinter(printers: seq<Printer>, i: int): (k: nat)
    ensures k <= |printers| && (k < |printers| ==> printers[k].jobIndex != -1 && printers[k].jobIndex == i)
    ensures forall l :: 0 <= l < k ==> printers[l].jobIndex == -1 || printers[l].jobIndex != i
  {
    if printers == [] || (printers[0].jobIndex != -1 && printers[0].jobIndex == i) then 0
      else 1 + FindPrinter(printers[1..], i)
  }

  /** The first slot that is free or whose job was deleted. */
  function FreeSlot(jobs: seq<Job>): (i: nat)
    ensures i <= |jobs| && (i < |jobs| ==> !jobs[i].taken || jobs[i].status == DELETED)
    ensures forall j :: 0 <= j < i ==> jobs[j].taken && jobs[j].status != DELETED
  {
    if jobs == [] || !jobs[0].taken || jobs[0].status == DELETED then 0 else 1 + FreeSlot(jobs[1..])
  }

  /** The look-ups of the signal handler succeed: the job and the printer of a process that was alive. */
  lemma LookupsSucceed(s: Spool, p: int)
    requires Inv(s) && p in s.procs
    ensures FindJob(s.masters, p) == s.procs[p] < MAX_JOBS
    ensures var k := FindPrinter(s.printers, s.procs[p]); k < |s.printers| && HoldsJob(s, k, s.procs[p])
  {
    var i := s.procs[p];
    assert JobOk(s, i);
    assert FindJob(s.masters, p) == i;
    var k :| HoldsJob(s, k, i);
    assert s.printers[k].jobIndex == i;
  }

  // ---- commands ----

  /** `print`: the first usable slot takes the job; without one the job is dropped and -1 returned. */
  function Submitted(s: Spool, document: int): Spool
    requires |s.jobs| == MAX_JOBS
  {
    if FreeSlot(s.jobs) == MAX_JOBS then s
    else s.(jobs := s.jobs[FreeSlot(s.jobs) := Job(document, CREATED, true, -1)])
  }

  lemma SubmittedInv(s: Spool, document: int)
    requires Inv(s)
    ensures Inv(Submitted(s, document))
    ensures FreeSlot(s.jobs) < MAX_JOBS ==> !IsActive(s.jobs[FreeSlot(s.jobs)])
  {
    var i, n := FreeSlot(s.jobs), Submitted(s, document);
    if i < MAX_JOBS {
      CountUpdate(s.jobs, i, n.jobs[i]);
      OthersStay(s, n, i);
    }
  }

  /** Where only job `i` changed, and neither before nor after active, everything else stays in order. */
  lemma OthersStay(s: Spool, n: Spool, i: nat)
    requires Inv(s) && i < MAX_JOBS && |n.jobs| == MAX_JOBS && n == s.(jobs := n.jobs)
    requires forall j :: 0 <= j < MAX_JOBS && j != i ==> n.jobs[j] == s.jobs[j]
    requires IsActive(n.jobs[i]) == IsActive(s.jobs[i]) && ActiveCount(n.jobs) == ActiveCount(s.jobs)
    ensures Inv(n)
  {
    forall k | 0 <= k < |n.printers|
      ensures PrinterOk(n, k)
    {
      assert PrinterOk(s, k);
    }
    forall j | 0 <= j < MAX_JOBS && IsActive(n.jobs[j])
      ensures JobOk(n, j)
    {
      assert JobOk(s, j);
      var k :| HoldsJob(s, k, j);
      assert HoldsJob(n, k, j);
    }
  }

  /** `printer`: a new printer is disabled and has no job; 32 are the most. */
  function Defined(s: Spool): Spool {
    if |s.printers| >= MAX_PRINTERS then s else s.(printers := s.printers + [Printer(DISABLED, -1)])
  }

  lemma DefinedInv(s: Spool)
    requires Inv(s)
    ensures Inv(Defined(s))
  {
    var n := Defined(s);
    forall k | 0 <= k < |n.printers|
      ensures PrinterOk(n, k)
    {
      if k < |s.printers| { assert PrinterOk(s, k); }
    }
    forall j | 0 <= j < MAX_JOBS && IsActive(n.jobs[j])
      ensures JobOk(n, j)
    {
      assert JobOk(s, j);
      var k :| HoldsJob(s, k, j);
      assert HoldsJob(n, k, j);
    }
  }

  /** `enable` and `disable` set the status, whatever the printer is doing. */
  function Switched(s: Spool, k: nat, status: PrinterStatus): Spool
    requires k < |s.printers|
  {
    s.(printers := s.printers[k := s.printers[k].(status := status)])
  }

  lemma SwitchedInv(s: Spool, k: nat, status: PrinterStatus)
    requires Inv(s) && k < |s.printers| && status != BUSY
    ensures Inv(Switched(s, k, status))
  {
    var n := Switched(s, k, status);
    assert forall l :: 0 <= l < |s.printers| ==> n.printers[l].jobIndex == s.printers[l].jobIndex;
    forall l | 0 <= l < |n.printers|
      ensures PrinterOk(n, l)
    {
      assert PrinterOk(s, l);
    }
    forall j | 0 <= j < MAX_JOBS && IsActive(n.jobs[j])
      ensures JobOk(n, j)
    {
      assert JobOk(s, j);
      var l :| HoldsJob(s, l, j);
      assert HoldsJob(n, l, j);
    }
  }

  /** deleteJobs: jobs that ended at least ten seconds ago give their slots up. */
  function Expired(j: Job, now: int): Job {
    if (j.status == FINISHED || j.status == ABORTED) && now >= j.since + 10 then j.(taken := false, status := DELETED)
      else j
  }

  function Swept(s: Spool, now: int): Spool {
    s.(jobs := seq(|s.jobs|, i requires 0 <= i < |s.jobs| => Expired(s.jobs[i], now)))
  }

  lemma {:induction false} CountSame(jobs: seq<Job>, other: seq<Job>)
    requires |jobs| == |other| && forall i :: 0 <= i < |jobs| ==> IsActive(jobs[i]) == IsActive(other[i])
    ensures ActiveCount(jobs) == ActiveCount(other)
  {
    if jobs != [] { CountSame(jobs[1..], other[1..]); }
  }

  lemma SweptInv(s: Spool, now: int)
    requires Inv(s)
    ensures Inv(Swept(s, now))
  {
    var n := Swept(s, now);
    CountSame(s.jobs, n.jobs);
    forall k | 0 <= k < |n.printers|
      ensures PrinterOk(n, k)
    {
      assert PrinterOk(s, k);
    }
    forall j | 0 <= j < MAX_JOBS && IsActive(n.jobs[j])
      ensures JobOk(n, j)
    {
      assert JobOk(s, j);
      var k :| HoldsJob(s, k, j);
      assert HoldsJob(n, k, j);
    }
  }

  // ---- the scan ----

  /** The first printer that suits job `i`, is idle and has no job. */
  function FirstIdle(printers: seq<Printer>, i: int, suits: (int, int) -> bool, k: nat): (r: nat)
    requires k <= |printers|
    ensures k <= r <= |printers|
    ensures r < |printers| ==> suits(i, r) && printers[r] == Printer(IDLE, -1)
    ensures forall l :: k <= l < r ==> !(suits(i, l) && printers[l] == Printer(IDLE, -1))
    decreases |printers| - k
  {
    if k == |printers| || (suits(i, k) && printers[k].status == IDLE && printers[k].jobIndex == -1) then k
    else FirstIdle(printers, i, suits, k + 1)
  }

  /** Job `i` starts on printer `k` as process `p`. */
  function Dispatched(s: Spool, i: nat, k: nat, p: int): Spool
    requires i < |s.jobs| && k < |s.printers| && i < |s.masters|
  {
    Spool(s.jobs[i := s.jobs[i].(status := RUNNING)], s.printers[k := Printer(BUSY, i)], s.masters[i := p],
      s.children + 1, s.procs[p := i])
  }

  predicate Waiting(j: Job) { j.taken && j.status == CREATED }

  /** The job waits and some printer can take it. */
  predicate Starts(s: Spool, i: nat, suits: (int, int) -> bool)
    requires i < |s.jobs|
  {
    Waiting(s.jobs[i]) && FirstIdle(s.printers, i, suits, 0) < |s.printers|
  }

  /** One turn of the scan: a waiting job starts on the first printer that can take it. */
  function Scanned(s: Spool, i: nat, suits: (int, int) -> bool, p: int): Spool
    requires i < |s.jobs| && i < |s.masters|
  {
    if Starts(s, i, suits) then Dispatched(s, i, FirstIdle(s.printers, i, suits, 0), p) else s
  }

  /** The scan from slot `i` on, `pids[i]` being what fork returns for that slot. */
  function ScannedFrom(s: Spool, i: nat, suits: (int, int) -> bool, pids: seq<int>): (n: Spool)
    requires i <= MAX_JOBS == |pids| && |s.jobs| == MAX_JOBS && |s.masters| == MAX_JOBS
    ensures |n.jobs| == MAX_JOBS && |n.masters| == MAX_JOBS && |n.printers| == |s.printers|
    decreases MAX_JOBS - i
  {
    if i == MAX_JOBS then s else ScannedFrom(Scanned(s, i, suits, pids[i]), i + 1, suits, pids)
  }

  /**
   * The numbers that fork returns during the scan from slot `i` on: none belongs to a process that is still
   * there, and none is remembered by a slot before the one it is for.
   */
  ghost predicate Fresh(s: Spool, i: nat, suits: (int, int) -> bool, pids: seq<int>)
    requires i <= MAX_JOBS == |pids| && |s.jobs| == MAX_JOBS && |s.masters| == MAX_JOBS
    decreases MAX_JOBS - i
  {
    i == MAX_JOBS ||
    ((Starts(s, i, suits) ==> pids[i] !in s.procs && NotBefore(s.masters, i, pids[i])) &&
      Fresh(Scanned(s, i, suits, pids[i]), i + 1, suits, pids))
  }

  lemma DispatchedInv(s: Spool, i: nat, k: nat, p: int)
    requires Inv(s) && i < MAX_JOBS && k < |s.printers| && Waiting(s.jobs[i]) && s.printers[k] == Printer(IDLE, -1)
    requires p !in s.procs && NotBefore(s.masters, i, p)
    ensures Inv(Dispatched(s, i, k, p))
  {
    var n := Dispatched(s, i, k, p);
    CountUpdate(s.jobs, i, n.jobs[i]);
    HoldsNothing(s, i);
    forall l | 0 <= l < |n.printers|
      ensures PrinterOk(n, l)
    {
      assert PrinterOk(s, l);
    }
    forall j | 0 <= j < MAX_JOBS && IsActive(n.jobs[j])
      ensures JobOk(n, j)
    {
      if j == i {
        assert HoldsJob(n, k, i);
      } else {
        assert JobOk(s, j);
        var l :| HoldsJob(s, l, j);
        assert HoldsJob(n, l, j);
      }
    }
  }

  lemma ActiveLives(s: Spool, j: nat)
    requires Inv(s) && j < MAX_JOBS
    ensures IsActive(s.jobs[j]) ==> s.masters[j] in s.procs
  {
    if IsActive(s.jobs[j]) { assert JobOk(s, j); }
  }

  /** No printer holds a job that is not active. */
  lemma HoldsNothing(s: Spool, i: nat)
    requires Inv(s) && i < MAX_JOBS && !IsActive(s.jobs[i])
    ensures forall l :: 0 <= l < |s.printers| ==> s.printers[l].jobIndex != i
  {
    forall l | 0 <= l < |s.printers|
      ensures s.printers[l].jobIndex != i
    {
      assert PrinterOk(s, l);
    }
  }

  /** Reports of the living process `p` go to slot `j`, which is on no printer. */
  ghost predicate Misled(s: Spool, j: int, p: int) {
    && |s.jobs| == MAX_JOBS && |s.masters| == MAX_JOBS && 0 <= j < MAX_JOBS
    && p in s.procs && s.masters[j] == p && NotBefore(s.masters, j, p)
    && (forall k :: 0 <= k < |s.printers| ==> s.printers[k].jobIndex != j)
  }

  /**
   * When the system reuses a number, starting a job is in order if and only if no earlier slot remembers an
   * older process of that number. Then the handler will find the job and its printer. Otherwise the process
   * is taken for that of an earlier slot, whose job is not active.
   */
  lemma ReusedNumber(s: Spool, i: nat, k: nat, p: int)
    requires Inv(s) && i < MAX_JOBS && k < |s.printers| && Waiting(s.jobs[i]) && s.printers[k] == Printer(IDLE, -1)
    requires p !in s.procs
    ensures var n := Dispatched(s, i, k, p);
            var j := FindJob(n.masters, p);
            && (Inv(n) <==> NotBefore(s.masters, i, p))
            && (NotBefore(s.masters, i, p) ==> j == i && FindPrinter(n.printers, i) == k)
            && (!NotBefore(s.masters, i, p) ==> j < i && !IsActive(n.jobs[j]) && Misled(n, j, p))
  {
    var n := Dispatched(s, i, k, p);
    var j := FindJob(n.masters, p);
    assert n.masters[i] == p;
    if NotBefore(s.masters, i, p) {
      DispatchedInv(s, i, k, p);
      LookupsSucceed(n, p);
      ActiveIffHeld(n, i);
      assert HoldsJob(n, k, i) && HoldsJob(n, FindPrinter(n.printers, i), i);
    } else {
      var l :| 0 <= l < i && s.masters[l] == p;
      assert n.masters[l] == p && s.masters[j] == p;
      ActiveLives(s, j);
      HoldsNothing(s, j);
      assert IsActive(n.jobs[i]) && !JobOk(n, i);
    }
  }

  lemma ScannedInv(s: Spool, i: nat, suits: (int, int) -> bool, pids: seq<int>)
    requires Inv(s) && i < MAX_JOBS == |pids| && Fresh(s, i, suits, pids)
    ensures var n := Scanned(s, i, suits, pids[i]); Inv(n) && Fresh(n, i + 1, suits, pids)
  {
    if Starts(s, i, suits) { DispatchedInv(s, i, FirstIdle(s.printers, i, suits, 0), pids[i]); }
  }

  lemma {:induction false} ScannedFromInv(s: Spool, i: nat, suits: (int, int) -> bool, pids: seq<int>)
    requires Inv(s) && i <= MAX_JOBS == |pids| && Fresh(s, i, suits, pids)
    ensures Inv(ScannedFrom(s, i, suits, pids))
    decreases MAX_JOBS - i
  {
    if i < MAX_JOBS {
      ScannedInv(s, i, suits, pids);
      hide Fresh;
      ScannedFromInv(Scanned(s, i, suits, pids[i]), i + 1, suits, pids);
    }
  }

  /** After a scan no job waits while a printer that suits it is idle. */
  lemma {:induction false} ScanMissesNothing(s: Spool, i: nat, suits: (int, int) -> bool, pids: seq<int>, j: nat,
      k: nat)
    requires i <= j < MAX_JOBS == |pids| && |s.jobs| == MAX_JOBS && |s.masters| == MAX_JOBS && k < |s.printers|
    ensures var n := ScannedFrom(s, i, suits, pids);
            !(Waiting(n.jobs[j]) && suits(j, k) && n.printers[k] == Printer(IDLE, -1))
    decreases MAX_JOBS - i
  {
    var n := Scanned(s, i, suits, pids[i]);
    if i < j {
      ScanMissesNothing(n, i + 1, suits, pids, j, k);
    } else {
      ScanLeaves(n, i + 1, suits, pids, j, k);
    }
  }

  /** The scan does not come back to a slot, and never makes a printer idle. */
  lemma {:induction false} ScanLeaves(s: Spool, i: nat, suits: (int, int) -> bool, pids: seq<int>, j: nat, k: nat)
    requires j < i <= MAX_JOBS == |pids| && |s.jobs| == MAX_JOBS && |s.masters| == MAX_JOBS && k < |s.printers|
    ensures var n := ScannedFrom(s, i, suits, pids);
            n.jobs[j] == s.jobs[j] && (s.printers[k] != Printer(IDLE, -1) ==> n.printers[k] == s.printers[k])
    decreases MAX_JOBS - i
  {
    if i < MAX_JOBS { ScanLeaves(Scanned(s, i, suits, pids[i]), i + 1, suits, pids, j, k); }
  }

  // ---- what the system reports ----

  /**
   * What waitpid tells of a child, in the order of the tests; a process that exits counts as finished whatever
   * its exit code.
   */
  datatype Report = Signaled | Stopped | Continued | Exited | Other

  function StatusAfter(how: Report): JobStatus {
    match how
    case Signaled => ABORTED
    case Stopped => PAUSED
    case Continued => RUNNING
    case Exited => FINISHED
    case Other => ABORTED
  }

  predicate Ends(how: Report) { how.Signaled? || how.Exited? || how.Other? }

  /**
   * One report handled: the job gets its status; if the process ended, the printer is freed, unless disabled
   * also idle.
   */
  function Reported(s: Spool, p: int, how: Report, now: int): Spool
    requires FindJob(s.masters, p) < |s.jobs|
    requires (Ends(how) ==> FindPrinter(s.printers, FindJob(s.masters, p)) < |s.printers|)
  {
    var i := FindJob(s.masters, p);
    if Ends(how) then
      var k := FindPrinter(s.printers, i);
      var status := if s.printers[k].status != DISABLED then IDLE else DISABLED;
      Spool(s.jobs[i := s.jobs[i].(status := StatusAfter(how), since := now)], s.printers[k := Printer(status, -1)],
            s.masters, s.children - 1, s.procs - {p})
    else s.(jobs := s.jobs[i := s.jobs[i].(status := StatusAfter(how))])
  }

  lemma ReportedInv(s: Spool, p: int, how: Report, now: int)
    requires Inv(s) && p in s.procs
    ensures FindJob(s.masters, p) < |s.jobs| && FindPrinter(s.printers, FindJob(s.masters, p)) < |s.printers|
    ensures Inv(Reported(s, p, how, now))
  {
    LookupsSucceed(s, p);
    var i, n := s.procs[p], Reported(s, p, how, now);
    CountUpdate(s.jobs, i, n.jobs[i]);
    if Ends(how) {
      EndedInv(s, p, n, FindPrinter(s.printers, i));
    } else {
      OthersStay(s, n, i);
    }
  }

  lemma EndedInv(s: Spool, p: int, n: Spool, k: nat)
    requires Inv(s) && p in s.procs && k < |s.printers| && HoldsJob(s, k, s.procs[p])
    requires |n.jobs| == MAX_JOBS && !IsActive(n.jobs[s.procs[p]])
    requires forall j :: 0 <= j < MAX_JOBS && j != s.procs[p] ==> n.jobs[j] == s.jobs[j]
    requires |n.printers| == |s.printers| && n.printers[k].jobIndex == -1 && n.printers[k].status != BUSY
    requires forall l :: 0 <= l < |s.printers| && l != k ==> n.printers[l] == s.printers[l]
    requires n.masters == s.masters && n.procs == s.procs - {p} && n.children == ActiveCount(n.jobs)
    ensures Inv(n)
  {
    var i := s.procs[p];
    forall l | 0 <= l < |n.printers|
      ensures PrinterOk(n, l)
    {
      assert PrinterOk(s, l);
      assert l < k || l > k || l == k;
    }
    forall j | 0 <= j < MAX_JOBS && IsActive(n.jobs[j])
      ensures JobOk(n, j)
    {
      assert JobOk(s, j);
      var l :| HoldsJob(s, l, j);
      assert HoldsJob(n, l, j);
    }
    forall q | q in n.procs
      ensures 0 <= n.procs[q] < MAX_JOBS && IsActive(n.jobs[n.procs[q]]) && n.masters[n.procs[q]] == q
    {
      assert s.masters[s.procs[q]] == q && s.masters[i] == p;
    }
  }

  // ---- runs ----

  datatype Event =
    | Print(document: int)
    | DefinePrinter
    | Enable(printer: nat)
    | Disable(printer: nat)
    | Scan(suits: (int, int) -> bool, pids: seq<int>)
    | Child(pid: int, how: Report, now: int)
    | Sweep(now: int)

  predicate Sized(s: Spool) { |s.jobs| == MAX_JOBS && |s.masters| == MAX_JOBS }

  /**
   * The system only reports on processes that have not been reported dead, and gives new ones numbers that the
   * tables can tell apart.
   */
  ghost predicate Possible(s: Spool, e: Event)
    requires Sized(s)
  {
    match e
    case Enable(k) => k < |s.printers|
    case Disable(k) => k < |s.printers|
    case Scan(suits, pids) => |pids| == MAX_JOBS && Fresh(s, 0, suits, pids)
    case Child(p, _, _) => p in s.procs
    case _ => true
  }

  /** The code has a job and a printer to work on: it does not check what its searches return. */
  predicate SearchesSucceed(s: Spool, e: Event)
    requires Sized(s)
  {
    e.Child? ==>
      && FindJob(s.masters, e.pid) < MAX_JOBS
      && (Ends(e.how) ==> FindPrinter(s.printers, FindJob(s.masters, e.pid)) < |s.printers|)
  }

  /** What an event makes of any tables, in order or not. */
  ghost function Step(s: Spool, e: Event): (n: Spool)
    requires Sized(s) && Possible(s, e) && SearchesSucceed(s, e)
    ensures Sized(n)
  {
    match e
    case Print(d) => Submitted(s, d)
    case DefinePrinter => Defined(s)
    case Enable(k) => Switched(s, k, IDLE)
    case Disable(k) => Switched(s, k, DISABLED)
    case Scan(suits, pids) => ScannedFrom(s, 0, suits, pids)
    case Child(p, how, now) => Reported(s, p, how, now)
    case Sweep(now) => Swept(s, now)
  }

  ghost function After(s: Spool, e: Event): (n: Spool)
    requires Inv(s) && Possible(s, e)
    ensures Inv(n)
  {
    StepKeeps(s, e);
    Step(s, e)
  }

  /** In tables that are in order all searches succeed, and they stay in order. */
  lemma StepKeeps(s: Spool, e: Event)
    requires Inv(s) && Possible(s, e)
    ensures SearchesSucceed(s, e) && Inv(Step(s, e))
  {
    match e
    case Print(d) => SubmittedInv(s, d);
    case DefinePrinter => DefinedInv(s);
    case Enable(k) => SwitchedInv(s, k, IDLE);
    case Disable(k) => SwitchedInv(s, k, DISABLED);
    case Scan(suits, pids) => ScannedFromInv(s, 0, suits, pids);
    case Child(p, how, now) => ReportedInv(s, p, how, now);
    case Sweep(now) => SweptInv(s, now);
  }

  /** All slots free, no printer, no process. */
  function Initial(): Spool {
    Spool(seq(MAX_JOBS, _ => Job(0, CREATED, false, 0)), [], seq(MAX_JOBS, _ => 0), 0, map[])
  }

  ghost function Start(): (s: Spool)
    ensures Inv(s)
  {
    CountZero(Initial().jobs);
    Initial()
  }

  datatype Result = Impossible | Reached(spool: Spool)

  /** A run of commands, scans and reports in any order. */
  ghost function Run(s: Spool, events: seq<Event>): (r: Result)
    requires Inv(s)
    ensures r.Reached? ==> Inv(r.spool)
    decreases |events|
  {
    if events == [] then Reached(s)
    else if !Possible(s, events[0]) then Impossible
    else Run(After(s, events[0]), events[1..])
  }

  /**
   * Over every run: a job is active if and only if exactly one printer holds it, and the count tells when all
   * are done.
   */
  lemma Coupling(events: seq<Event>, i: int)
    requires Run(Start(), events).Reached? && 0 <= i < MAX_JOBS
    ensures var s := Run(Start(), events).spool;
            && |s.jobs| == MAX_JOBS
            && (IsActive(s.jobs[i]) <==> exists k :: HoldsJob(s, k, i))
            && (forall k, l :: HoldsJob(s, k, i) && HoldsJob(s, l, i) ==> k == l)
            && (forall k :: 0 <= k < |s.printers| && s.printers[k].status == BUSY ==> s.printers[k].jobIndex != -1)
            && s.children == ActiveCount(s.jobs)
  {
    var s := Run(Start(), events).spool;
    ActiveIffHeld(s, i);
    forall k | 0 <= k < |s.printers|
      ensures s.printers[k].status == BUSY ==> s.printers[k].jobIndex != -1
    {
      assert PrinterOk(s, k);
    }
  }

  /** A slot whose process lives keeps its job through every event but the report that the process ended. */
  lemma SlotKept(s: Spool, e: Event, p: int)
    requires Inv(s) && Possible(s, e) && p in s.procs && !(e.Child? && e.pid == p && Ends(e.how))
    ensures var n, i := After(s, e), s.procs[p];
            && |n.jobs| == MAX_JOBS && p in n.procs && n.procs[p] == i
            && n.jobs[i].document == s.jobs[i].document && IsActive(n.jobs[i])
  {
    var i := s.procs[p];
    assert JobOk(s, i);
    match e
    case Scan(suits, pids) => ScanKeeps(s, 0, suits, pids, p);
    case Child(q, how, now) => LookupsSucceed(s, q);
    case Print(d) => SubmittedInv(s, d);
    case _ =>
  }

  lemma {:induction false} ScanKeeps(s: Spool, i: nat, suits: (int, int) -> bool, pids: seq<int>, p: int)
    requires Inv(s) && i <= MAX_JOBS == |pids| && Fresh(s, i, suits, pids) && p in s.procs
    ensures var n, j := ScannedFrom(s, i, suits, pids), s.procs[p];
            p in n.procs && n.procs[p] == j && n.jobs[j] == s.jobs[j]
    decreases MAX_JOBS - i
  {
    if i < MAX_JOBS {
      ScannedInv(s, i, suits, pids);
      ScanKeeps(Scanned(s, i, suits, pids[i]), i + 1, suits, pids, p);
    }
  }

  // ---- a number used again ----

  /** What any events come to, in tables that need not be in order. */
  ghost predicate IsHistory(states: seq<Spool>, events: seq<Event>) {
    && |states| == |events| + 1
    && (forall i :: 0 <= i < |events| ==>
          && Sized(states[i]) && Possible(states[i], events[i]) && SearchesSucceed(states[i], events[i])
          && states[i + 1] == Step(states[i], events[i]))
  }

  lemma {:induction false} ScanMisled(s: Spool, i: nat, suits: (int, int) -> bool, pids: seq<int>, j: nat, p: int)
    requires Misled(s, j, p) && i <= MAX_JOBS == |pids| && Fresh(s, i, suits, pids)
    ensures var n := ScannedFrom(s, i, suits, pids); Misled(n, j, p) || n.masters[j] != p
    decreases MAX_JOBS - i
  {
    if i < MAX_JOBS {
      var n := Scanned(s, i, suits, pids[i]);
      if Starts(s, i, suits) && i == j {
        ScanRemembers(n, i + 1, suits, pids, j);
      } else {
        ScanMisled(n, i + 1, suits, pids, j, p);
      }
    }
  }

  /** The scan does not come back to a slot. */
  lemma {:induction false} ScanRemembers(s: Spool, i: nat, suits: (int, int) -> bool, pids: seq<int>, j: nat)
    requires j < i <= MAX_JOBS == |pids| && Sized(s)
    ensures ScannedFrom(s, i, suits, pids).masters[j] == s.masters[j]
    decreases MAX_JOBS - i
  {
    if i < MAX_JOBS { ScanRemembers(Scanned(s, i, suits, pids[i]), i + 1, suits, pids, j); }
  }

  lemma StepMisled(s: Spool, e: Event, j: nat, p: int)
    requires Misled(s, j, p) && Possible(s, e) && SearchesSucceed(s, e)
    ensures Misled(Step(s, e), j, p) || Step(s, e).masters[j] != p
  {
    match e
    case Scan(suits, pids) => ScanMisled(s, 0, suits, pids, j, p);
    case Child(q, how, now) => MisledSearch(s, j, p);
    case _ =>
  }

  lemma MisledSearch(s: Spool, j: nat, p: int)
    requires Misled(s, j, p)
    ensures FindJob(s.masters, p) == j && FindPrinter(s.printers, j) == |s.printers|
  {
  }

  /**
   * Once it is mistaken, a process stays so through all events until its wrong slot is started again: all its
   * reports go there, and at the report of its end the search for a printer fails.
   */
  lemma {:induction false} MisledOn(states: seq<Spool>, events: seq<Event>, m: nat, j: nat, p: int)
    requires IsHistory(states, events) && m < |states| && Misled(states[0], j, p)
    requires forall k :: 0 <= k <= m ==> |states[k].masters| == MAX_JOBS && states[k].masters[j] == p
    ensures Misled(states[m], j, p) && FindJob(states[m].masters, p) == j
    ensures forall how, now :: Ends(how) ==> !SearchesSucceed(states[m], Child(p, how, now))
  {
    if m > 0 {
      MisledOn(states, events, m - 1, j, p);
      StepMisled(states[m - 1], events[m - 1], j, p);
    }
    MisledSearch(states[m], j, p);
  }

  /** A scan that finds nothing waiting changes nothing. */
  lemma {:induction false} NothingWaits(s: Spool, i: nat, suits: (int, int) -> bool, pids: seq<int>)
    requires Sized(s) && i <= MAX_JOBS == |pids| && forall j :: i <= j < MAX_JOBS ==> !Waiting(s.jobs[j])
    ensures ScannedFrom(s, i, suits, pids) == s && Fresh(s, i, suits, pids)
    decreases MAX_JOBS - i
  {
    if i < MAX_JOBS { NothingWaits(s, i + 1, suits, pids); }
  }

  /** The one job printed so far is in slot 0. */
  ghost predicate Early(s: Spool, status: JobStatus, printers: seq<Printer>, master: int, procs: map<int, int>) {
    && Inv(s) && s.jobs[0].taken && s.jobs[0].status == status && (forall j :: 1 <= j < MAX_JOBS ==> !s.jobs[j].taken)
    && s.printers == printers && s.masters[0] == master && s.procs == procs
  }

  lemma RunNext(s: Spool, e: Event, rest: seq<Event>)
    requires Inv(s) && Possible(s, e)
    ensures Run(s, [e] + rest) == Run(After(s, e), rest)
  {
    assert ([e] + rest)[1..] == rest;
  }

  lemma FirstPrinted()
    ensures Early(After(Start(), Print(1)), CREATED, [], 0, map[])
  {
    hide Inv;
    InvSized(Start());
    assert FreeSlot(Start().jobs) == 0;
  }

  lemma PrinterReady(s: Spool)
    requires Early(s, CREATED, [], 0, map[])
    ensures Early(After(s, DefinePrinter), CREATED, [Printer(DISABLED, -1)], 0, map[])
    ensures Possible(After(s, DefinePrinter), Enable(0))
    ensures Early(After(After(s, DefinePrinter), Enable(0)), CREATED, [Printer(IDLE, -1)], 0, map[])
  {
    InvSized(s);
    hide Inv;
  }

  /** The only job that waits is in slot 0 and starts on the only printer. */
  lemma FirstStarts(s: Spool, suits: (int, int) -> bool, pids: seq<int>)
    requires Early(s, CREATED, [Printer(IDLE, -1)], 0, map[]) && |pids| == MAX_JOBS && pids[0] == 5 && suits(0, 0)
    ensures Possible(s, Scan(suits, pids))
    ensures Early(After(s, Scan(suits, pids)), RUNNING, [Printer(BUSY, 0)], 5, map[5 := 0])
  {
    hide Inv, FirstIdle;
    InvSized(s);
    OneIdle(s.printers, suits);
    var n := Scanned(s, 0, suits, pids[0]);
    assert Starts(s, 0, suits) && n == Dispatched(s, 0, 0, 5);
    NothingWaits(n, 1, suits, pids);
    assert Fresh(s, 0, suits, pids) && ScannedFrom(s, 0, suits, pids) == ScannedFrom(n, 1, suits, pids);
    hide Fresh, ScannedFrom, Scanned;
  }

  lemma OneIdle(printers: seq<Printer>, suits: (int, int) -> bool)
    requires printers == [Printer(IDLE, -1)] && suits(0, 0)
    ensures FirstIdle(printers, 0, suits, 0) == 0
  {
  }

  lemma FirstEnds(s: Spool)
    requires Early(s, RUNNING, [Printer(BUSY, 0)], 5, map[5 := 0])
    ensures Possible(s, Child(5, Exited, 0))
    ensures Early(After(s, Child(5, Exited, 0)), FINISHED, [Printer(IDLE, -1)], 5, map[])
  {
    hide Inv;
    InvSized(s);
    StepKeeps(s, Child(5, Exited, 0));
    assert FindJob(s.masters, 5) == 0 && FindPrinter(s.printers, 0) == 0;
  }

  lemma SecondPrinted(s: Spool)
    requires Early(s, FINISHED, [Printer(IDLE, -1)], 5, map[])
    ensures var n := After(s, Print(2));
            Sized(n) && Waiting(n.jobs[1]) && n.printers == s.printers && n.masters == s.masters && n.procs == s.procs
  {
    hide Inv;
    InvSized(s);
    assert FreeSlot(s.jobs) == 1;
  }

  lemma InvSized(s: Spool)
    requires Inv(s)
    ensures Sized(s)
  {
  }

  /**
   * A short run after which the next start is not in order: the job in slot 0 has ended, the job in slot 1
   * waits for the idle printer, and the number that slot 0 remembers may be used again.
   */
  lemma ReuseIsReached(suits: (int, int) -> bool, pids: seq<int>)
    requires |pids| == MAX_JOBS && pids[0] == 5 && suits(0, 0)
    ensures var r := Run(Start(),
              [Print(1), DefinePrinter, Enable(0), Scan(suits, pids), Child(5, Exited, 0), Print(2)]);
            && r.Reached? && |r.spool.masters| == |r.spool.jobs| == MAX_JOBS
            && Waiting(r.spool.jobs[1]) && r.spool.printers == [Printer(IDLE, -1)]
            && 5 !in r.spool.procs && !NotBefore(r.spool.masters, 1, 5)
  {
    hide Inv, After, Run, Fresh;
    var scan, ended := Scan(suits, pids), Child(5, Exited, 0);
    FirstPrinted();
    var s1 := After(Start(), Print(1));
    PrinterReady(s1);
    var s2 := After(s1, DefinePrinter);
    var s3 := After(s2, Enable(0));
    FirstStarts(s3, suits, pids);
    var s4 := After(s3, scan);
    FirstEnds(s4);
    var s5 := After(s4, ended);
    SecondPrinted(s5);
    var last := [Print(2)];
    RunNext(s5, Print(2), []);
    RunNext(s4, ended, last);
    RunNext(s3, scan, [ended] + last);
    RunNext(s2, Enable(0), [scan] + ([ended] + last));
    RunNext(s1, DefinePrinter, [Enable(0)] + ([scan] + ([ended] + last)));
    RunNext(Start(), Print(1), [DefinePrinter] + ([Enable(0)] + ([scan] + ([ended] + last))));
    assert [Print(1)] + ([DefinePrinter] + ([Enable(0)] + ([scan] + ([ended] + last)))) ==
      [Print(1), DefinePrinter, Enable(0), scan, ended, Print(2)];
    assert [Print(2)] + [] == last;
    RunOver(After(s5, Print(2)));
  }

  lemma RunOver(s: Spool)
    requires Inv(s)
    ensures Run(s, []) == Reached(s)
  {
  }
}

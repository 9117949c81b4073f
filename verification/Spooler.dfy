/**
 * The spooler's global tables and the code that changes them (hw4/src/cli.c,
 * hw4/include/helpingFunction.h), each piece proved against the state machine.
 */
module Spooler {
  import opened SpoolModel
  import opened SpoolHistory

  /** The reports of one delivery of SIGCHLD, as events. */
  function Children(reports: seq<(int, Report, int)>): (e: seq<Event>)
    ensures |e| == |reports|
  {
    seq(|reports|, i requires 0 <= i < |reports| => Child(reports[i].0, reports[i].1, reports[i].2))
  }

  /** What one report leaves behind. */
  ghost predicate HandledAs(s: Spool, p: int, how: Report, now: int, n: Spool) {
    && Inv(s) && Possible(s, Child(p, how, now)) && SearchesSucceed(s, Child(p, how, now))
    && n == Reported(s, p, how, now)
  }

  lemma Handled(s: Spool, p: int, how: Report, now: int)
    requires Inv(s) && p in s.procs
    ensures Sized(s) && FindJob(s.masters, p) < MAX_JOBS
    ensures FindPrinter(s.printers, FindJob(s.masters, p)) < |s.printers|
    ensures var n := Reported(s, p, how, now); Inv(n) && HandledAs(s, p, how, now, n) && ReportShows(s, p, how, now, n)
  {
    ReportedInv(s, p, how, now);
    InvSized(s);
    hide Inv, Reported;
    ReportOnTables(s, p, how, now);
  }

  /** A run from `s` through the events ends in `n`. */
  ghost predicate ReachedBy(s: Spool, events: seq<Event>, n: Spool) { Inv(s) && Run(s, events) == Reached(n) }

  class Spooler {
    const listJobs: array<Job>
    const listPrinters: array<Printer>
    const jobToMasterId: array<int>
    var nextFreeIndex: int
    var masterChildCount: int
    ghost var procs: map<int, int>

    ghost predicate Shaped()
      reads this
    {
      listJobs.Length == MAX_JOBS && listPrinters.Length == MAX_PRINTERS && jobToMasterId.Length == MAX_JOBS &&
        0 <= nextFreeIndex <= MAX_PRINTERS
    }

    ghost function State(): Spool
      requires Shaped()
      reads this, listJobs, listPrinters, jobToMasterId
    {
      Spool(listJobs[..], listPrinters[..nextFreeIndex], jobToMasterId[..], masterChildCount, procs)
    }

    ghost predicate Valid()
      reads this, listJobs, listPrinters, jobToMasterId
    {
      Shaped() && Inv(State())
    }

    constructor ()
      ensures Valid() && State() == Initial() && fresh(listJobs) && fresh(listPrinters) && fresh(jobToMasterId)
    {
      listJobs := new Job[MAX_JOBS](_ => Job(0, CREATED, false, 0));
      listPrinters := new Printer[MAX_PRINTERS](_ => Printer(DISABLED, 0));
      jobToMasterId := new int[MAX_JOBS](_ => 0);
      nextFreeIndex, masterChildCount := 0, 0;
      procs := map[];
      new;
      ghost var start := Start();
      assert State() == Initial();
    }

    // ---- searches ----

    method FindJobIndex(masterId: int) returns (index: int)
      requires Shaped()
      ensures var i := FindJob(jobToMasterId[..], masterId); index == if i < MAX_JOBS then i else -1
    {
      for i := 0 to MAX_JOBS
        invariant forall j :: 0 <= j < i ==> jobToMasterId[j] != masterId
      {
        if jobToMasterId[i] == masterId {
          return i;
        }
      }
      return -1;
    }

    method FindPrinterByJobIndex(jobIndex: int) returns (index: int)
      requires Shaped()
      ensures var k := FindPrinter(listPrinters[..nextFreeIndex], jobIndex);
              index == if k < nextFreeIndex then k else -1
    {
      for i := 0 to nextFreeIndex
        invariant forall l :: 0 <= l < i ==> listPrinters[l].jobIndex == -1 || listPrinters[l].jobIndex != jobIndex
      {
        if listPrinters[i].jobIndex != -1 && listPrinters[i].jobIndex == jobIndex {
          return i;
        }
      }
      return -1;
    }

    // ---- commands ----

    /** The first usable slot, or -1: a slot whose process lives is never handed out. */
    method AddJobToList(document: int) returns (index: int)
      requires Valid()
      modifies listJobs
      ensures Valid() && State() == Submitted(old(State()), document)
      ensures index == -1 || 0 <= index < MAX_JOBS
      ensures index != -1 ==> listJobs[..] == old(listJobs[..])[index := Job(document, CREATED, true, -1)]
      ensures index == -1 ==> listJobs[..] == old(listJobs[..])
      ensures forall i :: 0 <= i < MAX_JOBS && (index == -1 || i <= index) ==>
                (i == index <==> old(listJobs[i].status == DELETED || !listJobs[i].taken))
    {
      SubmittedInv(State(), document);
      for i := 0 to MAX_JOBS
        invariant forall j :: 0 <= j < i ==> listJobs[j].taken && listJobs[j].status != DELETED
        invariant listJobs[..] == old(listJobs[..])
      {
        if !listJobs[i].taken || listJobs[i].status == DELETED {
          assert FreeSlot(listJobs[..]) == i;
          listJobs[i] := Job(document, CREATED, true, -1);
          return i;
        }
      }
      assert FreeSlot(listJobs[..]) == MAX_JOBS;
      return -1;
    }

    method DefinePrinter() returns (ok: bool)
      requires Valid()
      modifies this`nextFreeIndex, listPrinters
      ensures Valid() && State() == Defined(old(State())) && (ok <==> old(nextFreeIndex) < 32)
      ensures nextFreeIndex == old(nextFreeIndex) + (if ok then 1 else 0)
      ensures ok ==> listPrinters[old(nextFreeIndex)] == Printer(DISABLED, -1)
      ensures forall k :: 0 <= k < old(nextFreeIndex) ==> listPrinters[k] == old(listPrinters[k])
    {
      DefinedInv(State());
      if nextFreeIndex == MAX_PRINTERS {
        return false;
      }
      ghost var before := listPrinters[..nextFreeIndex];
      listPrinters[nextFreeIndex] := Printer(DISABLED, -1);
      nextFreeIndex := nextFreeIndex + 1;
      assert listPrinters[..nextFreeIndex] == before + [Printer(DISABLED, -1)];
      return true;
    }

    /** `enable` and `disable` for a printer that exists. */
    method SetPrinterStatus(index: int, enable: bool)
      requires Valid() && 0 <= index < nextFreeIndex
      modifies listPrinters
      ensures Valid() && State() == Switched(old(State()), index, if enable then IDLE else DISABLED)
      ensures listPrinters[index] == old(listPrinters[index]).(status := if enable then IDLE else DISABLED)
      ensures forall k :: 0 <= k < MAX_PRINTERS && k != index ==> listPrinters[k] == old(listPrinters[k])
    {
      SwitchedInv(State(), index, if enable then IDLE else DISABLED);
      ghost var n := Switched(State(), index, if enable then IDLE else DISABLED);
      listPrinters[index] := listPrinters[index].(status := if enable then IDLE else DISABLED);
      assert listPrinters[..nextFreeIndex] == n.printers;
    }

    /** The slots of jobs that ended at least ten seconds ago are free again. */
    method DeleteJobs(now: int)
      requires Valid()
      modifies listJobs
      ensures Valid() && State() == Swept(old(State()), now)
      ensures forall i :: 0 <= i < MAX_JOBS ==>
                var j := old(listJobs[i]);
                listJobs[i] == if (j.status == FINISHED || j.status == ABORTED) && now - j.since >= 10
                  then Job(j.document, DELETED, false, j.since) else j
    {
      SweptInv(State(), now);
      ghost var s := State();
      for i := 0 to MAX_JOBS
        invariant forall j :: 0 <= j < MAX_JOBS ==> listJobs[j] == if j < i then Expired(s.jobs[j], now) else s.jobs[j]
      {
        if (listJobs[i].status == FINISHED || listJobs[i].status == ABORTED) && now >= listJobs[i].since + 10 {
          listJobs[i] := listJobs[i].(taken := false, status := DELETED);
        }
      }
      assert listJobs[..] == Swept(s, now).jobs;
    }

    // ---- scanJobs ----

    /**
     * Waiting jobs start on idle printers that suit them. `suits` stands for the job's eligible printers and
     * for the search of a conversion; `pids[i]` is what fork returns for the job in slot `i`.
     */
    method ScanJobs(suits: (int, int) -> bool, pids: seq<int>)
      requires Valid() && |pids| == MAX_JOBS && Fresh(State(), 0, suits, pids)
      modifies this`masterChildCount, this`procs, listJobs, listPrinters, jobToMasterId
      ensures Valid() && State() == ScannedFrom(old(State()), 0, suits, pids)
    {
      hide Inv, Fresh, ScannedFrom;
      ghost var s := State();
      ScannedFromInv(s, 0, suits, pids);
      for i := 0 to MAX_JOBS
        invariant Shaped() && Inv(State()) && Fresh(State(), i, suits, pids)
        invariant ScannedFrom(State(), i, suits, pids) == ScannedFrom(s, 0, suits, pids)
      {
        ScannedInv(State(), i, suits, pids);
        ScanTurn(State(), i, suits, pids);
        ScanSlot(i, suits, pids[i]);
      }
      ScanEnds(State(), suits, pids);
    }

    lemma ScanTurn(s: Spool, i: nat, suits: (int, int) -> bool, pids: seq<int>)
      requires i < MAX_JOBS == |pids| && |s.jobs| == MAX_JOBS && |s.masters| == MAX_JOBS
      ensures ScannedFrom(s, i, suits, pids) == ScannedFrom(Scanned(s, i, suits, pids[i]), i + 1, suits, pids)
    {
    }

    /** One turn of the scan: the printers are tried in order, and the first match ends the turn. */
    method ScanSlot(i: int, suits: (int, int) -> bool, pid: int)
      requires Shaped() && 0 <= i < MAX_JOBS
      modifies this`masterChildCount, this`procs, listJobs, listPrinters, jobToMasterId
      ensures Shaped() && State() == Scanned(old(State()), i, suits, pid)
    {
      ghost var s := State();
      if listJobs[i].taken && listJobs[i].status == CREATED {
        for k := 0 to nextFreeIndex
          invariant State() == s && FirstIdle(s.printers, i, suits, 0) == FirstIdle(s.printers, i, suits, k)
        {
          if suits(i, k) && listPrinters[k].status == IDLE && listPrinters[k].jobIndex == -1 {
            listPrinters[k] := Printer(BUSY, i);
            listJobs[i] := listJobs[i].(status := RUNNING);
            jobToMasterId[i] := pid;
            masterChildCount := masterChildCount + 1;
            procs := procs[pid := i];
            assert listPrinters[..nextFreeIndex] == s.printers[k := Printer(BUSY, i)];
            return;
          }
        }
      }
    }

    // ---- masterSigHandler ----

    /** One report of waitpid. */
    method HandleReport(pid: int, how: Report, now: int)
      requires Valid() && pid in procs
      modifies this`masterChildCount, this`procs, listJobs, listPrinters
      ensures Valid()
      ensures HandledAs(old(State()), pid, how, now, State())
      ensures ReportShows(old(State()), pid, how, now, State())
    {
      hide Inv, ReportShows, HandledAs;
      ghost var s := State();
      Handled(s, pid, how, now);
      ghost var n := Reported(s, pid, how, now);
      var jobIndex := FindJobIndex(pid);
      if how.Stopped? {
        listJobs[jobIndex] := listJobs[jobIndex].(status := PAUSED);
      } else if how.Continued? {
        listJobs[jobIndex] := listJobs[jobIndex].(status := RUNNING);
      } else {
        listJobs[jobIndex] := listJobs[jobIndex].(status := if how.Exited? then FINISHED else ABORTED, since := now);
        var printerIndex := FindPrinterByJobIndex(jobIndex);
        var status := if listPrinters[printerIndex].status != DISABLED then IDLE else DISABLED;
        listPrinters[printerIndex] := Printer(status, -1);
        masterChildCount := masterChildCount - 1;
        procs := procs - {pid};
        assert listPrinters[..nextFreeIndex] == n.printers;
      }
      assert State() == n;
      hide Reported, FindJob, FindPrinter;
    }

    /** All reports that are pending, in the order in which they come. */
    method MasterSigHandler(reports: seq<(int, Report, int)>)
      requires Valid() && Run(State(), Children(reports)).Reached?
      modifies this`masterChildCount, this`procs, listJobs, listPrinters
      ensures Valid() && ReachedBy(old(State()), Children(reports), State())
    {
      hide Inv;
      ghost var s, events := State(), Children(reports);
      assert events[0..] == events;
      for i := 0 to |reports|
        invariant Valid() && Run(State(), events[i..]) == Run(s, events)
      {
        RunOn(State(), events, i);
        HandleReport(reports[i].0, reports[i].1, reports[i].2);
      }
    }

    lemma RunOn(s: Spool, events: seq<Event>, i: nat)
      requires Inv(s) && i < |events| && Run(s, events[i..]).Reached? && events[i].Child?
      ensures Possible(s, events[i]) && Run(s, events[i..]) == Run(After(s, events[i]), events[i + 1..])
      ensures HandledAs(s, events[i].pid, events[i].how, events[i].now, After(s, events[i]))
    {
      assert events[i..][1..] == events[i + 1..];
      ReportedInv(s, events[i].pid, events[i].how, events[i].now);
    }

    lemma ScanEnds(s: Spool, suits: (int, int) -> bool, pids: seq<int>)
      requires |pids| == MAX_JOBS && |s.jobs| == MAX_JOBS && |s.masters| == MAX_JOBS
      ensures ScannedFrom(s, MAX_JOBS, suits, pids) == s
    {
    }
  }
}

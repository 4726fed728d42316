/** Services of process 1: started when due, reaped when they exit, reconciled when the table is reread. */
module Supervisor {
  import opened Bits

  const SECOND := 1_000_000_000
  const LONG_RUN := 5 * SECOND

  datatype Entry = Entry(id: string, action: string, command: string, line: nat)

  function Key(entry: Entry): string {
    entry.id + "\0" + entry.action + "\0" + entry.command
  }

  predicate Kept(entry: Entry) {
    entry.action == "respawn" || entry.action == "askfirst"
  }

  /** The entry is one that is kept running, under this key. */
  ghost predicate Names(entry: Entry, k: string) {
    && (entry.action == "respawn" || entry.action == "askfirst")
    && k == entry.id + "\0" + entry.action + "\0" + entry.command
  }

  /** The last of the entries under a key. */
  ghost predicate LastNamed(entries: seq<Entry>, k: string, entry: Entry) {
    exists i: nat :: i < |entries| && entries[i] == entry && Names(entry, k)
      && forall j: nat :: i < j < |entries| ==> !Names(entries[j], k)
  }

  ghost predicate Named(entries: seq<Entry>, k: string) {
    exists i: nat :: i < |entries| && Names(entries[i], k)
  }

  // ----- Delays

  /** How long to wait after `failures` short runs in a row. */
  function RespawnDelay(failures: nat): (d: nat)
  {
    if failures < 1 then 0
    else
      var shift := if failures - 1 > 5 then 5 else failures - 1;
      SECOND * Pow2(shift)
  }

  /** One second at first, doubled by each further failure, and never above 32. */
  lemma DelayGrows(k: nat)
    ensures RespawnDelay(0) == 0 && RespawnDelay(1) == 1_000_000_000
    ensures 1 <= k <= 6 ==> RespawnDelay(k) == 1_000_000_000 * Pow2(k - 1)
    ensures k >= 6 ==> RespawnDelay(k) == 32_000_000_000
    ensures RespawnDelay(k) <= RespawnDelay(k + 1) <= 32_000_000_000
  {
    assert Pow2(1) == 2 && Pow2(2) == 4 && Pow2(3) == 8 && Pow2(4) == 16 && Pow2(5) == 32;
  }

  /** A run of a service; a start that failed counts as one that ended at once. */
  datatype Run = Run(started: nat, ended: nat)

  predicate Short(run: Run) {
    run.ended - run.started < LONG_RUN
  }

  /** Short runs since the last long one. */
  function FailuresAfter(runs: seq<Run>): nat {
    if runs == [] || !Short(runs[|runs| - 1]) then 0 else FailuresAfter(runs[..|runs| - 1]) + 1
  }

  lemma ShortRun(runs: seq<Run>, run: Run)
    ensures FailuresAfter(runs + [run]) == if Short(run) then FailuresAfter(runs) + 1 else 0
  {
    assert (runs + [run])[..|runs|] == runs;
  }

  lemma {:induction false} ShortRunsCount(runs: seq<Run>, k: nat)
    requires k <= |runs| && forall i :: |runs| - k <= i < |runs| ==> Short(runs[i])
    requires k < |runs| ==> !Short(runs[|runs| - k - 1])
    ensures FailuresAfter(runs) == k
    decreases k
  {
    if k > 0 {
      ShortRunsCount(runs[..|runs| - 1], k - 1);
    }
  }

  // ----- Services

  datatype Snapshot = Snapshot(entry: Entry, pid: nat, started: nat, restartAt: nat, failures: nat, disabled: bool)

  class Service {
    var entry: Entry
    var pid: nat
    var started: nat
    var restartAt: nat
    var failures: nat
    var disabled: bool
    ghost var runs: seq<Run>

    constructor (entry: Entry)
      ensures Snap() == Snapshot(entry, 0, 0, 0, 0, false) && runs == []
    {
      this.entry, pid, started, restartAt, failures, disabled, runs := entry, 0, 0, 0, 0, false, [];
    }

    ghost function Snap(): Snapshot
      reads this
    {
      Snapshot(entry, pid, started, restartAt, failures, disabled)
    }

    /** The counters of a service in use follow from its runs. */
    ghost predicate Counted()
      reads this`failures, this`restartAt, this`runs
    {
      && failures == FailuresAfter(runs)
      && restartAt == if runs == [] then 0 else runs[|runs| - 1].ended + RespawnDelay(failures)
    }
  }

  /** The entries that are kept running, by key; the last of equals wins. */
  function Desired(entries: seq<Entry>, n: nat): map<string, Entry>
    requires n <= |entries|
  {
    if n == 0 then map[]
    else if Kept(entries[n - 1]) then Desired(entries, n - 1)[Key(entries[n - 1]) := entries[n - 1]]
    else Desired(entries, n - 1)
  }

  lemma {:induction false} DesiredKeys(entries: seq<Entry>, n: nat)
    requires n <= |entries|
    ensures forall k :: k in Desired(entries, n) ==> Key(Desired(entries, n)[k]) == k
  {
    if n > 0 {
      DesiredKeys(entries, n - 1);
    }
  }

  /** Which keys the map has, and that the last of the entries under a key is the one it has. */
  lemma {:induction false} DesiredNamed(entries: seq<Entry>, n: nat, k: string)
    requires n <= |entries|
    ensures k in Desired(entries, n) <==> Named(entries[..n], k)
    ensures k in Desired(entries, n) ==> LastNamed(entries[..n], k, Desired(entries, n)[k])
  {
    if n > 0 {
      DesiredNamed(entries, n - 1, k);
      assert entries[..n] == entries[..n - 1] + [entries[n - 1]];
      NamedNext(entries[..n - 1], entries[n - 1], k);
      NamesKey(entries[n - 1], k);
    }
  }

  lemma AllNamed(entries: seq<Entry>)
    ensures var desired := Desired(entries, |entries|);
      forall k :: (k in desired <==> Named(entries, k)) && (k in desired ==> LastNamed(entries, k, desired[k]))
  {
    hide Desired, Named, LastNamed;
    assert entries[..|entries|] == entries;
    forall k
      ensures k in Desired(entries, |entries|) <==> Named(entries, k)
      ensures k in Desired(entries, |entries|) ==> LastNamed(entries, k, Desired(entries, |entries|)[k])
    {
      DesiredNamed(entries, |entries|, k);
    }
  }

  lemma NamesKey(entry: Entry, k: string)
    ensures Names(entry, k) <==> Kept(entry) && Key(entry) == k
  {
  }

  lemma NamedNext(entries: seq<Entry>, entry: Entry, k: string)
    ensures Named(entries + [entry], k) <==> Named(entries, k) || Names(entry, k)
    ensures Names(entry, k) ==> LastNamed(entries + [entry], k, entry)
    ensures forall e :: !Names(entry, k) && LastNamed(entries, k, e) ==> LastNamed(entries + [entry], k, e)
  {
    hide Names;
    var all := entries + [entry];
    assert all[|entries|] == entry;
    assert forall i: nat :: i < |entries| ==> all[i] == entries[i];
  }

  /** A pass over the due services: each is started with a new process, or its failure is counted. */
  ghost predicate StartStep(was: Snapshot, after: Snapshot, now: nat, children: set<nat>) {
    if was.disabled || was.pid != 0 || now < was.restartAt then after == was
    else
      || after == was.(failures := was.failures + 1, restartAt := now + RespawnDelay(was.failures + 1))
      || (after == was.(pid := after.pid, started := now) && after.pid != 0 && after.pid !in children)
  }

  /** Reaping: the process of a service that exited is gone, and its run is judged. */
  ghost predicate ReapStep(was: Snapshot, after: Snapshot, now: nat, exited: set<nat>) {
    if was.pid == 0 || was.pid !in exited then after == was
    else if was.disabled then after == was.(pid := 0)
    else if now - was.started >= LONG_RUN then after == was.(pid := 0, failures := 0, restartAt := now)
    else after == was.(pid := 0, failures := was.failures + 1, restartAt := now + RespawnDelay(was.failures + 1))
  }

  lemma FreshPid(children: set<nat>) returns (p: nat)
    ensures p > 0 && p !in children
  {
    var rest := children;
    p := 1;
    while rest != {}
      invariant rest <= children && p > 0 && forall x :: x in children && x !in rest ==> x < p
      decreases |rest|
    {
      var x :| x in rest;
      rest := rest - {x};
      p := if x >= p then x + 1 else p;
    }
  }

  class Init {
    var services: map<string, Service>
    var byPid: map<nat, Service>
    var clock: nat
    var children: set<nat>
    var exited: set<nat>
    var signalled: set<nat>
    ghost var known: set<Service>
    /** The children that were forked for a service and not yet reaped, as the kernel has them. */
    ghost var forked: map<nat, Service>

    constructor ()
      ensures Valid() && services == map[] && byPid == map[] && known == {}
    {
      services, byPid, clock, children, exited, signalled, known := map[], map[], 0, {}, {}, {}, {};
      forked := map[];
    }

    /** A service is in the table exactly while it is not disabled. */
    ghost predicate TableAgrees()
      reads this`services, this`known, known`entry, known`disabled
    {
      && (forall k :: k in services ==> services[k] in known && !services[k].disabled && Key(services[k].entry) == k)
      && (forall s :: s in known && !s.disabled ==> Key(s.entry) in services && services[Key(s.entry)] == s)
    }

    /** The table of processes and the services agree both ways, and their processes are children. */
    ghost predicate PidsAgree()
      reads this`byPid, this`children, this`known, known`pid
    {
      && (forall p :: p in byPid ==> byPid[p] in known && byPid[p].pid == p && p != 0 && p in children)
      && (forall s :: s in known && s.pid != 0 ==> s.pid in byPid && byPid[s.pid] == s)
    }

    ghost predicate CountsAgree()
      reads this`clock, this`known, known`disabled, known`started, known`failures, known`restartAt, known`runs
    {
      forall s :: s in known ==> s.started <= clock && (!s.disabled ==> s.Counted())
    }

    ghost predicate Valid()
      reads this, known
    {
      TableAgrees() && PidsAgree() && CountsAgree() && exited <= children && forked == byPid
    }

    // Events outside the program.

    method Advance(d: nat)
      requires Valid()
      modifies this`clock
      ensures Valid() && clock == old(clock) + d
    {
      clock := clock + d;
    }

    /** A child exits and waits to be reaped. */
    method Exit(p: nat)
      requires Valid() && p in children
      modifies this`exited
      ensures Valid() && exited == old(exited) + {p}
    {
      exited := exited + {p};
    }

    /** An orphan is adopted; its number is not that of an unreaped child. */
    method Adopt(p: nat)
      requires Valid() && p !in children
      modifies this`children
      ensures Valid() && children == old(children) + {p}
    {
      children := children + {p};
    }

    // ----- Starting

    /** A start that fails counts as a run that ended at once. */
    method FailStart(s: Service)
      requires Valid() && s in known && !s.disabled && s.pid == 0
      modifies s`failures, s`restartAt, s`runs
      ensures Valid()
      ensures s.Snap()
        == old(s.Snap()).(failures := old(s.failures) + 1, restartAt := clock + RespawnDelay(old(s.failures) + 1))
    {
      hide TableAgrees, PidsAgree, RespawnDelay, FailuresAfter, Key;
      ShortRun(s.runs, Run(clock, clock));
      s.failures := s.failures + 1;
      s.restartAt := clock + RespawnDelay(s.failures);
      s.runs := s.runs + [Run(clock, clock)];
    }

    /** The kernel makes a child for a service, under a number that no unreaped child has. */
    method Fork(s: Service) returns (p: nat)
      modifies this`children, this`forked
      ensures p > 0 && p !in old(children) && children == old(children) + {p} && forked == old(forked)[p := s]
    {
      ghost var unused := FreshPid(children);
      p :| p > 0 && p !in children;
      children, forked := children + {p}, forked[p := s];
    }

    /** A start that succeeds has forked one process, which is recorded. */
    method RunService(s: Service)
      requires Valid() && s in known && !s.disabled && s.pid == 0
      modifies s`pid, s`started, this`byPid, this`children, this`forked
      ensures Valid() && s.pid > 0 && s.pid !in old(children)
      ensures s.Snap() == old(s.Snap()).(pid := s.pid, started := clock)
      ensures children == old(children) + {s.pid} && forked == old(forked)[s.pid := s]
    {
      hide TableAgrees, RespawnDelay, FailuresAfter, Key;
      var p := Fork(s);
      s.pid, s.started := p, clock;
      byPid := byPid[p := s];
    }

    /** One service that is due: one process is forked and recorded, or none is and the failure is counted. */
    method Start(s: Service)
      requires Valid() && s in known && !s.disabled && s.pid == 0 && s.restartAt <= clock
      modifies s`pid, s`started, s`failures, s`restartAt, s`runs, this`byPid, this`children, this`forked
      ensures Valid() && StartStep(old(s.Snap()), s.Snap(), clock, old(children))
      ensures forked == if s.pid == 0 then old(forked) else old(forked)[s.pid := s]
      ensures children == old(children) + forked.Keys && old(forked).Keys <= forked.Keys
    {
      hide TableAgrees, CountsAgree, RespawnDelay;
      ForkedChildren();
      if * {
        FailStart(s);
      } else {
        RunService(s);
      }
    }

    lemma ForkedChildren()
      requires Valid()
      ensures forked.Keys <= children
    {
    }

    /** What every known service looks like. */
    ghost function Snaps(): map<Service, Snapshot>
      reads this`known, known
    {
      map s | s in known :: s.Snap()
    }

    /** One service, started if it is due. */
    method LookAt(key: string, ghost before: map<Service, Snapshot>, ghost todo: set<string>, ghost had: set<nat>)
      requires Valid() && key in services && key in todo && had <= children
      requires Swept(before, Snaps(), todo, clock, had)
      modifies this`byPid, this`children, this`forked
      modifies known`pid, known`started, known`failures, known`restartAt, known`runs
      ensures Valid() && had <= children && Swept(before, Snaps(), todo - {key}, clock, had)
      ensures children == old(children) + forked.Keys && old(forked).Keys <= forked.Keys
    {
      hide PidsAgree, CountsAgree, StartStep, Swept, Key;
      var s := services[key];
      ghost var during, more := Snaps(), children;
      InTable(key);
      ForkedChildren();
      if s.disabled || s.pid != 0 || clock < s.restartAt {
        NotDue(s.Snap(), clock, children);
        assert during == during[s := s.Snap()];
      } else {
        Start(s);
        assert Snaps() == during[s := s.Snap()];
      }
      SweepStep(before, during, Snaps(), s, todo, key, clock, had, more);
    }

    /** Every service in the table is looked at once, in any order; only the processes it records are new. */
    method StartDue()
      requires Valid()
      modifies this`byPid, this`children, this`forked
      modifies known`pid, known`started, known`failures, known`restartAt, known`runs
      ensures Valid() && Swept(old(Snaps()), Snaps(), {}, clock, old(children))
      ensures children == old(children) + forked.Keys && old(forked).Keys <= forked.Keys
    {
      hide PidsAgree, CountsAgree, TableAgrees, Swept, StartStep, Key, Snaps;
      var todo := services.Keys;
      ghost var before := Snaps();
      TableKeys();
      ForkedChildren();
      SweepStart(before, todo, clock, children);
      while todo != {}
        invariant Valid() && todo <= services.Keys
        invariant children == old(children) + forked.Keys && old(forked).Keys <= forked.Keys
        invariant Swept(before, Snaps(), todo, clock, old(children))
        decreases |todo|
      {
        var key :| key in todo;
        LookAt(key, before, todo, old(children));
        todo := todo - {key};
      }
    }

    // ----- Reaping

    /** One exited child is reaped; if it was a service, its run is judged. */
    method ReapOne(p: nat)
      requires Valid() && p in exited
      modifies this`byPid, this`children, this`forked, this`exited
      modifies known`pid, known`failures, known`restartAt, known`runs
      ensures Valid() && exited == old(exited) - {p} && children == old(children) - {p}
      ensures byPid == old(byPid) - {p} && forked == old(forked) - {p}
      ensures OneReaped(old(Snaps()), Snaps(), p, clock)
    {
      hide TableAgrees, RespawnDelay, FailuresAfter, Key, ReapStep, Service.Counted;
      children, exited, forked := children - {p}, exited - {p}, forked - {p};
      if p !in byPid {
        assert byPid - {p} == byPid;
        return;
      }
      var service := byPid[p];
      byPid := byPid - {p};
      JudgeRun(service);
    }

    method JudgeRun(s: Service)
      requires s in known && s.started <= clock && TableAgrees() && CountsAgree()
      modifies s`pid, s`failures, s`restartAt, s`runs
      ensures s.pid == 0 && TableAgrees() && CountsAgree() && s.started == old(s.started)
      ensures old(s.pid) != 0 ==> ReapStep(old(s.Snap()), s.Snap(), clock, {old(s.pid)})
    {
      hide TableAgrees, RespawnDelay, FailuresAfter, Key;
      var runtime := clock - s.started;
      s.pid := 0;
      if s.disabled {
        return;
      }
      ShortRun(s.runs, Run(s.started, clock));
      DelayGrows(0);
      if runtime >= LONG_RUN {
        s.failures := 0;
        s.restartAt := clock;
      } else {
        s.failures := s.failures + 1;
        s.restartAt := clock + RespawnDelay(s.failures);
      }
      s.runs := s.runs + [Run(s.started, clock)];
    }

    /** Until no child waits: each service whose process has exited is judged once. */
    method Reap()
      requires Valid()
      modifies this`byPid, this`children, this`forked, this`exited
      modifies known`pid, known`failures, known`restartAt, known`runs
      ensures Valid() && exited == {} && children == old(children) - old(exited)
      ensures forked == old(forked) - old(exited)
      ensures Reaped(old(Snaps()), Snaps(), clock, old(exited))
    {
      ghost var before := Snaps();
      hide PidsAgree, CountsAgree, TableAgrees, Reaped, ReapStep, Snaps;
      ReapStart(before, clock);
      assert old(exited) - exited == {};
      while exited != {}
        invariant Valid() && exited <= old(exited) && children == old(children) - (old(exited) - exited)
        invariant forked == old(forked) - (old(exited) - exited)
        invariant Reaped(before, Snaps(), clock, old(exited) - exited)
        decreases |exited|
      {
        var p :| p in exited;
        ghost var during, done := Snaps(), old(exited) - exited;
        ReapOne(p);
        ReapNext(before, during, Snaps(), p, clock, done);
        assert old(exited) - exited == done + {p};
      }
      assert old(exited) - {} == old(exited);
    }

    // ----- Rereading the table

    /** A service that is still wanted takes its new entry. */
    method KeepService(key: string, entry: Entry)
      requires Valid() && key in services && Key(entry) == key
      modifies known`entry
      ensures Valid() && OneKept(old(Snaps()), Snaps(), services[key], entry)
    {
      hide PidsAgree, CountsAgree, Key;
      services[key].entry := entry;
    }

    /** A service that is not wanted is disabled, told to end, and dropped from the table. */
    method DropService(key: string)
      requires Valid() && key in services
      modifies this`services, this`signalled, known`disabled
      ensures Valid() && services == old(services) - {key}
      ensures OneDropped(old(Snaps()), Snaps(), old(services)[key], signalled)
      ensures old(signalled) <= signalled
    {
      hide PidsAgree, Key, FailuresAfter, RespawnDelay;
      var s := services[key];
      if s.pid > 0 {
        signalled := signalled + {s.pid};
      }
      Disable(key, s);
    }

    method Disable(key: string, s: Service)
      requires TableAgrees() && CountsAgree() && key in services && services[key] == s
      modifies this`services, s`disabled
      ensures TableAgrees() && CountsAgree() && services == old(services) - {key} && s.disabled
    {
      hide Key, FailuresAfter, RespawnDelay;
      s.disabled := true;
      services := services - {key};
    }

    /** The loop over the table: wanted services stay, the others go. */
    method DropUnwanted(desired: map<string, Entry>)
      requires Valid() && forall k :: k in desired ==> Key(desired[k]) == k
      modifies this`services, this`signalled, known`entry, known`disabled
      ensures Valid() && services.Keys == old(services).Keys * desired.Keys
      ensures forall k :: k in services ==> services[k] == old(services)[k]
      ensures Sifted(old(Snaps()), Snaps(), {}, desired, signalled)
    {
      hide PidsAgree, CountsAgree, TableAgrees, Sifted, Key, Snaps, TableSifted;
      var todo := services.Keys;
      TableSiftStart(services, desired);
      ghost var before := Snaps();
      TableKeys();
      SiftStart(before, todo, desired, signalled);
      while todo != {}
        invariant Valid() && TableSifted(old(services), services, todo, desired)
        invariant Sifted(before, Snaps(), todo, desired, signalled)
        decreases |todo|
      {
        var key :| key in todo;
        ghost var table := services;
        TableHas(old(services), table, todo, desired, key);
        SiftOne(key, desired, before, todo);
        TableSiftStep(old(services), table, services, todo, desired, key);
        todo := todo - {key};
      }
      TableSiftEnd(old(services), services, desired);
    }

    /** One service of the table is kept or dropped. */
    method SiftOne(key: string, desired: map<string, Entry>, ghost before: map<Service, Snapshot>,
        ghost todo: set<string>)
      requires Valid() && key in services && key in todo && forall k :: k in desired ==> Key(desired[k]) == k
      requires Sifted(before, Snaps(), todo, desired, signalled)
      modifies this`services, this`signalled, known`entry, known`disabled
      ensures Valid() && services == (if key in desired then old(services) else old(services) - {key})
      ensures Sifted(before, Snaps(), todo - {key}, desired, signalled)
    {
      hide TableAgrees, PidsAgree, CountsAgree, Key, Snaps, Sifted;
      ghost var during, s, told := Snaps(), services[key], signalled;
      InTable(key);
      if key in desired {
        KeepService(key, desired[key]);
      } else {
        DropService(key);
      }
      SiftStep(before, during, Snaps(), s, todo, key, desired, told, signalled);
    }

    lemma InTable(key: string)
      requires Valid() && key in services
      ensures services[key] in Snaps() && !Snaps()[services[key]].disabled && Key(Snaps()[services[key]].entry) == key
      ensures forall t :: t in Snaps() && t != services[key] && !Snaps()[t].disabled ==> Key(Snaps()[t].entry) != key
    {
    }

    /** A new service is entered under its key. */
    method Enter(key: string, s: Service)
      requires Valid() && Key(s.entry) == key && key !in services && s !in known
      requires s.Snap() == Snapshot(s.entry, 0, 0, 0, 0, false) && s.runs == []
      modifies this`services, this`known
      ensures Valid() && services == old(services)[key := s] && known == old(known) + {s}
      ensures Snaps() == old(Snaps())[s := s.Snap()]
    {
      hide RespawnDelay, FailuresAfter, Key;
      NoRuns();
      services, known := services[key := s], known + {s};
    }

    lemma SnapsKnown()
      ensures Snaps().Keys == known
    {
    }

    /** A new service, not yet started. */
    method AddService(key: string, missing: map<string, Entry>, ghost a: Added)
      requires Valid() && key in missing && Key(missing[key]) == key && key !in a.done && key !in a.table
      requires a.Holds(missing, services, Snaps(), known)
      modifies this`services, this`known
      ensures Valid() && fresh(known - old(known))
      ensures a.(done := a.done + {key}).Holds(missing, services, Snaps(), known)
    {
      hide TableAgrees, PidsAgree, CountsAgree, Key, Snaps, Unstarted, Extends;
      ghost var table, had, snaps := services, known, Snaps();
      SnapsKnown();
      var s := new Service(missing[key]);
      Enter(key, s);
      AddedStep(missing, a, table, had, snaps, key, s);
    }

    /** A service for each entry that has none. */
    method AddMissing(missing: map<string, Entry>)
      requires Valid() && (forall k :: k in missing ==> Key(missing[k]) == k) && missing.Keys !! services.Keys
      modifies this`services, this`known
      ensures Valid() && fresh(known - old(known))
      ensures Added(old(services), old(known), old(Snaps()), missing.Keys).Holds(missing, services, Snaps(), known)
    {
      hide *;
      var todo := missing.Keys;
      ghost var a := Added(services, known, Snaps(), {});
      NoneAdded(missing, services, known, Snaps());
      while todo != {}
        invariant Valid() && fresh(known - old(known))
        invariant a == Added(old(services), old(known), old(Snaps()), a.done) && a.done == missing.Keys - todo
          && todo <= missing.Keys
        invariant a.Holds(missing, services, Snaps(), known)
        decreases |todo|
      {
        var key :| key in todo;
        AddService(key, missing, a);
        a := a.(done := a.done + {key});
        todo := todo - {key};
      }
      assert a.done == missing.Keys;
    }

    /** Unwanted services go, wanted ones take their entries, missing ones are added. */
    method Match(desired: map<string, Entry>, ghost sifted: map<Service, Snapshot>)
      returns (missing: map<string, Entry>)
      requires Valid() && services.Keys <= desired.Keys && sifted == Snaps()
      requires forall k :: k in desired ==> Key(desired[k]) == k
      modifies this`services, this`known
      ensures Valid() && services.Keys == desired.Keys && old(known) <= known && missing == desired - old(services).Keys
      ensures forall k :: k in old(services) ==> services[k] == old(services)[k]
      ensures Unstarted(missing, missing.Keys, services, Snaps(), old(known)) && Extends(sifted, Snaps())
      ensures fresh(known - old(known))
    {
      hide PidsAgree, CountsAgree, TableAgrees, Key, Unstarted, Extends, Snaps;
      missing := desired - services.Keys;
      AddMissing(missing);
    }

    /** The entries that are kept running, the last of those under one key. */
    method Collect(entries: seq<Entry>) returns (desired: map<string, Entry>)
      ensures desired == Desired(entries, |entries|)
      ensures forall k :: k in desired <==> Named(entries, k)
      ensures forall k :: k in desired ==> LastNamed(entries, k, desired[k])
    {
      desired := map[];
      for i := 0 to |entries|
        invariant desired == Desired(entries, i)
      {
        var entry := entries[i];
        if entry.action == "respawn" || entry.action == "askfirst" {
          desired := desired[entry.id + "\0" + entry.action + "\0" + entry.command := entry];
        }
      }
      AllNamed(entries);
    }

    /** What the snapshots say is what the services are. */
    lemma TableSnaps()
      requires Valid()
      ensures TableIn(services, Snaps())
      ensures forall s :: s in Snaps() ==>
          Snaps()[s].entry == s.entry && Snaps()[s].disabled == s.disabled && Snaps()[s].pid == s.pid
      ensures forall k :: k in services ==> services[k] in Snaps()
    {
    }

    /** The table is made to agree with the wanted entries, and what is due is started. */
    method Settle(desired: map<string, Entry>)
      requires Valid() && forall k :: k in desired ==> Key(desired[k]) == k
      modifies this`services, this`byPid, this`children, this`forked, this`signalled, this`known, known
      ensures Valid() && services.Keys == desired.Keys && old(known) <= known
      ensures forall k :: k in services && k in old(services) ==> services[k] == old(services)[k]
      ensures Reloaded(old(Snaps()), Snaps(), desired, clock, old(children), signalled)
      ensures AllBegun(desired, old(services).Keys, services, old(known), Snaps(), clock, old(children))
      ensures children == old(children) + forked.Keys && old(forked).Keys <= forked.Keys
    {
      hide PidsAgree, CountsAgree, TableAgrees, Sifted, StartStep, Key, Reloaded, Swept, AllBegun, Snaps;
      hide Unstarted, Extends;
      ghost var before, had := Snaps(), known;
      DropUnwanted(desired);
      ghost var sifted, stayed := Snaps(), services.Keys;
      var missing := Match(desired, sifted);
      ghost var added := Snaps();
      StartDue();
      ReloadDone(before, sifted, added, Snaps(), desired, clock, old(children), signalled);
      BegunAll(desired, missing, old(services).Keys, services, had, added, Snaps(), clock, old(children));
    }

    /**
     * The table is reread: its keys become those of the entries; a service that is still wanted keeps its
     * process and its counters, one that is not is told to end and never starts again.
     */
    method Reconcile(entries: seq<Entry>)
      requires Valid()
      modifies this`services, this`byPid, this`children, this`forked, this`signalled, this`known, known
      ensures Valid() && old(known) <= known
      ensures forall k :: k in services <==> Named(entries, k)
      ensures forall k :: k in services ==> LastNamed(entries, k, services[k].entry)
      ensures forall k :: k in old(services) && !Named(entries, k) ==>
          old(services)[k].disabled && (old(services[k].pid) > 0 ==> old(services[k].pid) in signalled)
      ensures forall k :: k in services && k in old(services) ==> services[k] == old(services)[k]
      ensures Reloaded(old(Snaps()), Snaps(), Desired(entries, |entries|), clock, old(children), signalled)
      ensures AllBegun(Desired(entries, |entries|), old(services).Keys, services, old(known), Snaps(), clock,
        old(children))
      ensures children == old(children) + forked.Keys && old(forked).Keys <= forked.Keys
    {
      hide *;
      var desired := Collect(entries);
      ghost var before, had, table := Snaps(), known, services;
      DesiredKeys(entries, |entries|);
      TableSnaps();
      Settle(desired);
      TableSnaps();
      EntriesTaken(desired, table, services, before, had, Snaps(), clock, old(children), signalled);
    }

    /**
     * What every reachable state guarantees: of all unreaped children that were ever forked for a service, at most
     * one is for each, and it is the one that the service and the table of processes name.
     */
    lemma OneProcessEach(p: nat, q: nat, s: Service)
      requires Valid() && s in known
      ensures p in forked && q in forked && forked[p] == forked[q] ==> p == q
      ensures p in forked && forked[p] == s <==> p != 0 && s.pid == p
      ensures p in forked ==> p in children && p in byPid && byPid[p] == forked[p]
    {
    }

    /** After `k` short runs in a row the next start waits for one second, doubled `k - 1` times, up to 32. */
    lemma RestartRule(s: Service, k: nat)
      requires Valid() && s in known && !s.disabled && 1 <= k <= |s.runs|
      requires forall i :: |s.runs| - k <= i < |s.runs| ==> s.runs[i].ended - s.runs[i].started < 5_000_000_000
      requires k < |s.runs| ==> s.runs[|s.runs| - k - 1].ended - s.runs[|s.runs| - k - 1].started >= 5_000_000_000
      ensures s.restartAt == s.runs[|s.runs| - 1].ended + 1_000_000_000 * (if k > 6 then 32 else Pow2(k - 1))
    {
      ShortRunsCount(s.runs, k);
      DelayGrows(k);
      assert s.Counted();
    }

    lemma TableKeys()
      requires Valid()
      ensures forall s :: s in Snaps() && !Snaps()[s].disabled ==> Key(Snaps()[s].entry) in services
    {
    }
  }

  /** Services outside `todo` have been looked at once, the others not at all; only counters and processes change. */
  ghost predicate Swept(before: map<Service, Snapshot>, after: map<Service, Snapshot>, todo: set<string>, now: nat,
      children: set<nat>) {
    after.Keys == before.Keys && forall s :: s in before ==>
      before[s].entry == after[s].entry && before[s].disabled == after[s].disabled
      && (if !before[s].disabled && Key(before[s].entry) in todo then after[s] == before[s]
          else StartStep(before[s], after[s], now, children))
  }

  lemma NotDue(was: Snapshot, now: nat, children: set<nat>)
    requires was.disabled || was.pid != 0 || now < was.restartAt
    ensures StartStep(was, was, now, children)
  {
  }

  lemma FewerChildren(was: Snapshot, after: Snapshot, now: nat, more: set<nat>, children: set<nat>)
    requires StartStep(was, after, now, more) && children <= more
    ensures StartStep(was, after, now, children) && was.entry == after.entry && was.disabled == after.disabled
  {
  }

  lemma SweepStart(before: map<Service, Snapshot>, todo: set<string>, now: nat, children: set<nat>)
    requires forall s :: s in before && !before[s].disabled ==> Key(before[s].entry) in todo
    ensures Swept(before, before, todo, now, children)
  {
    hide StartStep, Key;
    forall s | s in before && before[s].disabled ensures StartStep(before[s], before[s], now, children) {
      NotDue(before[s], now, children);
    }
  }

  lemma SweepStep(before: map<Service, Snapshot>, during: map<Service, Snapshot>,
      after: map<Service, Snapshot>, s: Service, todo: set<string>, key: string, now: nat, children: set<nat>,
      more: set<nat>)
    requires Swept(before, during, todo, now, children) && s in during && key in todo && children <= more
    requires !during[s].disabled && Key(during[s].entry) == key
    requires forall t :: t in during && t != s && !during[t].disabled ==> Key(during[t].entry) != key
    requires s in after && after == during[s := after[s]] && StartStep(during[s], after[s], now, more)
    ensures Swept(before, after, todo - {key}, now, children)
  {
    hide StartStep, Key;
    FewerChildren(during[s], after[s], now, more, children);
  }

  ghost predicate Reaped(before: map<Service, Snapshot>, after: map<Service, Snapshot>, now: nat, done: set<nat>) {
    after.Keys == before.Keys && forall s :: s in before ==> ReapStep(before[s], after[s], now, done)
  }

  lemma ReapStart(before: map<Service, Snapshot>, now: nat)
    ensures Reaped(before, before, now, {})
  {
  }

  /** Only the service of process `p` is judged. */
  ghost predicate OneReaped(during: map<Service, Snapshot>, after: map<Service, Snapshot>, p: nat, now: nat) {
    after.Keys == during.Keys && forall s :: s in during ==>
      if during[s].pid == p && p != 0 then ReapStep(during[s], after[s], now, {p}) else after[s] == during[s]
  }

  /** Reaping one more child. */
  lemma ReapNext(before: map<Service, Snapshot>, during: map<Service, Snapshot>,
      after: map<Service, Snapshot>, p: nat, now: nat, done: set<nat>)
    requires Reaped(before, during, now, done) && p !in done && OneReaped(during, after, p, now)
    ensures Reaped(before, after, now, done + {p})
  {
    hide RespawnDelay;
  }

  lemma NoRuns()
    ensures FailuresAfter([]) == 0
  {
  }

  /** Services outside `todo` are sifted: wanted ones have their entry, the others are disabled and told to end. */
  ghost predicate Sifted(before: map<Service, Snapshot>, after: map<Service, Snapshot>, todo: set<string>,
      desired: map<string, Entry>, told: set<nat>) {
    after.Keys == before.Keys && forall s :: s in before ==> Sift(before[s], after[s], todo, desired, told)
  }

  lemma SiftStart(before: map<Service, Snapshot>, todo: set<string>, desired: map<string, Entry>,
      told: set<nat>)
    requires forall s :: s in before && !before[s].disabled ==> Key(before[s].entry) in todo
    ensures Sifted(before, before, todo, desired, told)
  {
    hide Key;
  }

  /** The table has the services that are still to be sifted and those that are wanted. */
  ghost predicate TableSifted(was: map<string, Service>, now: map<string, Service>, todo: set<string>,
      desired: map<string, Entry>) {
    && todo <= was.Keys && (forall k :: k in now <==> k in was && (k in todo || k in desired))
    && forall k :: k in now ==> now[k] == was[k]
  }

  lemma TableSiftStart(was: map<string, Service>, desired: map<string, Entry>)
    ensures TableSifted(was, was, was.Keys, desired)
  {
  }

  lemma TableHas(was: map<string, Service>, now: map<string, Service>, todo: set<string>,
      desired: map<string, Entry>, key: string)
    requires TableSifted(was, now, todo, desired) && key in todo
    ensures key in now
  {
  }

  lemma TableSiftStep(was: map<string, Service>, now: map<string, Service>,
      next: map<string, Service>, todo: set<string>, desired: map<string, Entry>, key: string)
    requires TableSifted(was, now, todo, desired) && key in todo
    requires next == if key in desired then now else now - {key}
    ensures TableSifted(was, next, todo - {key}, desired)
  {
  }

  lemma TableSiftEnd(was: map<string, Service>, now: map<string, Service>,
      desired: map<string, Entry>)
    requires TableSifted(was, now, {}, desired)
    ensures now.Keys == was.Keys * desired.Keys && forall k :: k in now ==> now[k] == was[k]
  {
  }

  /** The table, the services and what they looked like before some missing keys were entered, and which are done. */
  datatype Added = Added(table: map<string, Service>, had: set<Service>, snaps: map<Service, Snapshot>,
      done: set<string>) {
    ghost predicate Holds(missing: map<string, Entry>, services: map<string, Service>, now: map<Service, Snapshot>,
        known: set<Service>) {
      && services.Keys == table.Keys + done && (forall k :: k in table ==> services[k] == table[k])
      && Unstarted(missing, done, services, now, had) && Extends(snaps, now) && had <= known
    }
  }

  lemma AddedStep(missing: map<string, Entry>, a: Added, services: map<string, Service>,
      known: set<Service>, snaps: map<Service, Snapshot>, key: string, s: Service)
    requires a.Holds(missing, services, snaps, known) && key in missing && key !in a.table && key !in a.done
    requires s !in known
    requires snaps.Keys == known
    ensures a.(done := a.done + {key}).Holds(
        missing, services[key := s], snaps[s := Snapshot(missing[key], 0, 0, 0, 0, false)], known + {s})
  {
  }

  lemma NoneAdded(missing: map<string, Entry>, services: map<string, Service>, known: set<Service>,
      snaps: map<Service, Snapshot>)
    ensures Added(services, known, snaps, {}).Holds(missing, services, snaps, known)
  {
  }

  ghost predicate OneKept(during: map<Service, Snapshot>, after: map<Service, Snapshot>, s: Service, entry: Entry) {
    s in during && after == during[s := during[s].(entry := entry)]
  }

  ghost predicate OneDropped(during: map<Service, Snapshot>, after: map<Service, Snapshot>, s: Service,
      told: set<nat>) {
    s in during && after == during[s := during[s].(disabled := true)] && (during[s].pid > 0 ==> during[s].pid in told)
  }

  ghost predicate OneSifted(during: map<Service, Snapshot>, after: map<Service, Snapshot>, s: Service, key: string,
                            desired: map<string, Entry>, told: set<nat>)
  {
    if key in desired then OneKept(during, after, s, desired[key]) else OneDropped(during, after, s, told)
  }

  /** What sifting does to one service. */
  ghost predicate Sift(was: Snapshot, after: Snapshot, todo: set<string>, desired: map<string, Entry>, told: set<nat>) {
    if was.disabled || Key(was.entry) in todo then after == was
    else if Key(was.entry) in desired then after == was.(entry := desired[Key(was.entry)])
    else after == was.(disabled := true) && (was.pid > 0 ==> was.pid in told)
  }

  lemma SiftStep(before: map<Service, Snapshot>, during: map<Service, Snapshot>,
      after: map<Service, Snapshot>, s: Service, todo: set<string>, key: string, desired: map<string, Entry>,
      fewer: set<nat>, told: set<nat>)
    requires Sifted(before, during, todo, desired, fewer) && key in todo && s in during && fewer <= told
    requires !during[s].disabled && Key(during[s].entry) == key && (key in desired ==> Key(desired[key]) == key)
    requires forall t :: t in during && t != s && !during[t].disabled ==> Key(during[t].entry) != key
    requires OneSifted(during, after, s, key, desired, told) && forall k :: k in desired ==> Key(desired[k]) == k
    ensures Sifted(before, after, todo - {key}, desired, told)
  {
    hide Key;
    forall t | t in before ensures Sift(before[t], after[t], todo - {key}, desired, told) {
      assert Sift(before[t], during[t], todo, desired, fewer);
      if t == s {
        SiftedBack(before[s], during[s], todo, key, desired, fewer);
      }
    }
  }

  /** A service in the table under a key not yet sifted is as it was. */
  lemma SiftedBack(was: Snapshot, during: Snapshot, todo: set<string>, key: string,
      desired: map<string, Entry>, told: set<nat>)
    requires Sift(was, during, todo, desired, told) && key in todo && !during.disabled && Key(during.entry) == key
    requires key in desired ==> Key(desired[key]) == key
    requires forall k :: k in desired ==> Key(desired[k]) == k
    ensures during == was
  {
    hide Key;
  }

  ghost predicate Extends(before: map<Service, Snapshot>, after: map<Service, Snapshot>) {
    forall s :: s in before ==> s in after && after[s] == before[s]
  }

  /** The services of these keys are new and not yet started. */
  ghost predicate Unstarted(missing: map<string, Entry>, keys: set<string>, services: map<string, Service>,
      snaps: map<Service, Snapshot>, had: set<Service>)
  {
    forall k :: k in keys ==>
      k in missing && k in services && services[k] !in had && services[k] in snaps
      && snaps[services[k]] == Snapshot(missing[k], 0, 0, 0, 0, false)
  }

  /** A new service, after its first look. */
  ghost predicate Begun(entry: Entry, snaps: map<Service, Snapshot>, s: Service, now: nat, children: set<nat>) {
    s in snaps && StartStep(Snapshot(entry, 0, 0, 0, 0, false), snaps[s], now, children)
  }

  /** Every wanted service that the table did not have is new and has been looked at. */
  ghost predicate AllBegun(desired: map<string, Entry>, keys: set<string>, services: map<string, Service>,
      had: set<Service>, snaps: map<Service, Snapshot>, now: nat, children: set<nat>)
  {
    forall k :: k in desired && k !in keys ==>
      k in services && services[k] !in had && Begun(desired[k], snaps, services[k], now, children)
  }

  lemma BegunAll(desired: map<string, Entry>, missing: map<string, Entry>, keys: set<string>,
      services: map<string, Service>, had: set<Service>, added: map<Service, Snapshot>, after: map<Service, Snapshot>,
      now: nat, children: set<nat>)
    requires Unstarted(missing, missing.Keys, services, added, had) && Swept(added, after, {}, now, children)
    requires missing == desired - keys * desired.Keys
    ensures AllBegun(desired, keys, services, had, after, now, children)
  {
    hide StartStep, Key;
    forall k | k in desired && k !in keys
      ensures k in services && services[k] !in had && Begun(desired[k], after, services[k], now, children)
    {
      assert k in missing.Keys && missing[k] == desired[k];
    }
  }

  /**
   * What a reload does to a service: one that is disabled stays as it is, an unwanted one is disabled, a wanted one
   * may start.
   */
  ghost predicate Reloaded(before: map<Service, Snapshot>, after: map<Service, Snapshot>, desired: map<string, Entry>,
                           now: nat, children: set<nat>, told: set<nat>)
  {
    forall s :: s in before ==> s in after && Reload(before[s], after[s], desired, now, children, told)
  }

  ghost predicate Reload(was: Snapshot, after: Snapshot, desired: map<string, Entry>, now: nat, children: set<nat>,
      told: set<nat>) {
    if was.disabled then after == was
    else if Key(was.entry) !in desired then after == was.(disabled := true) && (was.pid > 0 ==> was.pid in told)
    else StartStep(was.(entry := desired[Key(was.entry)]), after, now, children)
  }

  lemma ReloadDone(before: map<Service, Snapshot>, sifted: map<Service, Snapshot>,
      added: map<Service, Snapshot>, after: map<Service, Snapshot>, desired: map<string, Entry>, now: nat,
      children: set<nat>, told: set<nat>)
    requires Sifted(before, sifted, {}, desired, told) && Swept(added, after, {}, now, children)
    requires Extends(sifted, added)
    ensures Reloaded(before, after, desired, now, children, told)
  {
    hide Key, RespawnDelay;
  }

  /** Every service of the table, in use and under its key. */
  ghost predicate TableIn(table: map<string, Service>, snaps: map<Service, Snapshot>) {
    forall k :: k in table ==>
      table[k] in snaps && !snaps[table[k]].disabled && Key(snaps[table[k]].entry) == k
  }

  /** After a reload, the entries of the services in the table, and what became of the others. */
  lemma EntriesTaken(desired: map<string, Entry>, table: map<string, Service>, services: map<string, Service>,
      before: map<Service, Snapshot>, had: set<Service>, after: map<Service, Snapshot>, now: nat, children: set<nat>,
      told: set<nat>)
    requires TableIn(table, before) && services.Keys == desired.Keys
    requires forall k :: k in services && k in table ==> services[k] == table[k]
    requires Reloaded(before, after, desired, now, children, told)
    requires AllBegun(desired, table.Keys, services, had, after, now, children)
    ensures forall k :: k in services ==> services[k] in after && after[services[k]].entry == desired[k]
    ensures forall k :: k in table && k !in desired ==>
        table[k] in after && after[table[k]].disabled && (before[table[k]].pid > 0 ==> before[table[k]].pid in told)
  {
    hide Key, RespawnDelay;
    forall k | k in services ensures services[k] in after && after[services[k]].entry == desired[k] {
      if k in table {
        assert Reload(before[table[k]], after[table[k]], desired, now, children, told);
      } else {
        assert Begun(desired[k], after, services[k], now, children);
      }
    }
    forall k | k in table && k !in desired
      ensures table[k] in after && after[table[k]].disabled
      ensures before[table[k]].pid > 0 ==> before[table[k]].pid in told
    {
      assert Reload(before[table[k]], after[table[k]], desired, now, children, told);
    }
  }
}

/**
  Taking a snapshot on all shards: each shard links its files and reports them to one home shard, which
  writes the manifest once all have reported; no shard's call returns before the manifest is written.
*/
module SnapshotManifest {
  import opened Wrappers

  // snapshot_manager: the files reported, and its two semaphores
  datatype Manager = Manager(files: set<int>, requests: nat, written: nat, waiters: seq<nat>)

  // Where a shard's call stands; m is the manager it holds on to
  datatype Status =
    | Linking                              // has not reported yet
    | AwaitingReports(m: nat)              // the home shard only
    | ReadyToSeal(m: nat)
    | Sealing(m: nat, manifest: set<int>)
    | Reported(m: nat)                     // about to wait for the manifest
    | AwaitingManifest(m: nat)
    | Released(m: nat)
    | Done
    | Failed

  datatype State = State(
    home: nat,
    files: seq<set<int>>,        // what each shard links
    status: seq<Status>,
    managers: seq<Manager>,      // all ever made
    pending: Option<nat>,        // the entry of pending_snapshots for this snapshot
    manifests: seq<set<int>>     // written to disk
  )

  predicate Sized(s: State) {
    && |s.status| == |s.files| && s.home < |s.files|
    && (s.pending.Some? ==> s.pending.value < |s.managers|)
  }

  function Min(a: nat, b: nat): (m: nat) {
    if a < b then a else b
  }

  // ---- Steps ----

  // The manager to report to, made if there is none
  function Target(s: State): (m: nat) {
    if s.pending.Some? then s.pending.value else |s.managers|
  }

  function WithTarget(s: State): (ms: seq<Manager>) {
    if s.pending.Some? then s.managers else s.managers + [Manager({}, 0, 0, [])]
  }

  // A shard reports its files; the home shard then waits for as many reports as there are shards
  function Report(s: State, i: nat): (t: State)
    requires Sized(s) && i < |s.status|
  {
    var m, n := Target(s), |s.status|;
    var g := WithTarget(s)[m];
    var count := g.requests + 1;
    var asked := i == s.home || s.status[s.home] == AwaitingReports(m);
    var enough := asked && count >= n;
    var st := if i == s.home then s.status else s.status[i := Reported(m)];
    s.(status := if !asked then st else st[s.home := if enough then ReadyToSeal(m) else AwaitingReports(m)],
       managers := WithTarget(s)[m := g.(files := g.files + s.files[i], requests := if enough then count - n else count)],
       pending := Some(m))
  }

  function StartSeal(s: State, m: nat): (t: State)
    requires Sized(s) && s.pending.Some?
  {
    s.(status := s.status[s.home := Sealing(m, s.managers[s.pending.value].files)])
  }

  // The manifest is on disk: forget the pending entry and let as many waiters pass as there are shards
  function FinishSeal(s: State, m: nat, manifest: set<int>): (t: State)
    requires Sized(s) && m < |s.managers|
  {
    var g := s.managers[m];
    var k := Min(g.written + |s.status|, |g.waiters|);
    s.(status := seq(|s.status|, i requires 0 <= i < |s.status| =>
                   if i == s.home then Reported(m)
                   else if i in g.waiters[..k] then Released(m)
                   else s.status[i]),
       managers := s.managers[m := g.(written := g.written + |s.status| - k, waiters := g.waiters[k..])],
       pending := None,
       manifests := s.manifests + [manifest])
  }

  function FailSeal(s: State): (t: State)
    requires Sized(s)
  {
    s.(status := s.status[s.home := Failed], pending := None)
  }

  function AwaitManifest(s: State, i: nat, m: nat): (t: State)
    requires Sized(s) && i < |s.status| && m < |s.managers|
  {
    var g := s.managers[m];
    if g.written >= 1 && g.waiters == [] then
      s.(status := s.status[i := Released(m)], managers := s.managers[m := g.(written := g.written - 1)])
    else
      s.(status := s.status[i := AwaitingManifest(m)], managers := s.managers[m := g.(waiters := g.waiters + [i])])
  }

  // One step of shard i's call.  Writing the manifest may fail.
  ghost predicate Next(s: State, i: nat, t: State) {
    && Sized(s) && i < |s.status|
    && match s.status[i]
       case Linking => t == Report(s, i)
       case AwaitingReports(_) => false
       case ReadyToSeal(m) => i == s.home && s.pending.Some? && t == StartSeal(s, m)
       case Sealing(m, manifest) => i == s.home && m < |s.managers| && (t == FinishSeal(s, m, manifest) || t == FailSeal(s))
       case Reported(m) => m < |s.managers| && t == AwaitManifest(s, i, m)
       case AwaitingManifest(_) => false
       case Released(_) => t == s.(status := s.status[i := Done])
       case Done => false
       case Failed => false
  }

  // ---- What holds in every reachable state ----

  function Reporters(s: State): (r: set<nat>) {
    set i: nat | i < |s.status| && s.status[i] != Linking
  }

  // Let pass by the manifest semaphore
  function Passed(s: State): (r: set<nat>) {
    set i: nat | i < |s.status| && (s.status[i].Released? || s.status[i].Done?)
  }

  function Shards(n: nat): (r: set<nat>)
    ensures |r| == n && forall i: nat :: i in r <==> i < n
  {
    if n == 0 then {} else Shards(n - 1) + {n - 1}
  }

  // The files of some shards
  function FilesOf(files: seq<set<int>>, shards: set<nat>): (r: set<int>) {
    set i, f | i in shards && i < |files| && f in files[i] :: f
  }

  predicate Sealed(s: State) {
    s.manifests != []
  }

  // The home shard has been told that all have reported
  predicate Called(s: State)
    requires Sized(s)
  {
    s.status[s.home] != Linking && !s.status[s.home].AwaitingReports?
  }

  // Each shard's call is in order
  predicate StatusInv(s: State, i: nat)
    requires Sized(s) && i < |s.status|
  {
    var x := s.status[i];
    && (i != s.home ==> !x.AwaitingReports? && !x.ReadyToSeal? && !x.Sealing? && !x.Failed?)
    && (x != Linking && x != Done && x != Failed ==> x.m == 0)
    && (x.Released? || x.Done? ==> Sealed(s))
    && (x.AwaitingManifest? ==> !Sealed(s) && i != s.home)
    && (i == s.home ==> (Sealed(s) <==> x.Reported? || x.Released? || x.Done?))
    && (x.Sealing? ==> x.manifest == FilesOf(s.files, Shards(|s.status|)))
  }

  predicate StatusesInv(s: State)
    requires Sized(s)
  {
    forall i: nat :: i < |s.status| ==> StatusInv(s, i)
  }

  // One manager for all, which has what was reported; the home shard is called when all have
  predicate ReportsInv(s: State)
    requires Sized(s)
  {
    && |s.managers| <= 1
    && (s.managers == [] <==> Reporters(s) == {})
    && (s.pending.Some? <==> s.managers != [] && !Sealed(s) && s.status[s.home] != Failed)
    && (s.managers != [] ==>
          && s.managers[0].requests + (if Called(s) then |s.status| else 0) == |Reporters(s)|
          && s.managers[0].files == FilesOf(s.files, Reporters(s)))
    && (s.status[s.home].AwaitingReports? ==> |Reporters(s)| < |s.status|)
    && (Called(s) ==> Reporters(s) == Shards(|s.status|))
  }

  // As many units as shards once the manifest is written, none before
  ghost predicate SemaphoreInv(s: State) {
    s.managers != [] ==>
      var g := s.managers[0];
      && g.written + |Passed(s)| == (if Sealed(s) then |s.status| else 0)
      && (g.waiters != [] ==> g.written == 0)
      && Distinct(g.waiters)
      && (forall i: nat :: i in g.waiters <==> i < |s.status| && s.status[i].AwaitingManifest?)
  }

  predicate ManifestInv(s: State) {
    Sealed(s) ==> s.manifests == [FilesOf(s.files, Shards(|s.status|))]
  }

  ghost predicate Inv(s: State) {
    Sized(s) && StatusesInv(s) && ReportsInv(s) && SemaphoreInv(s) && ManifestInv(s)
  }

  predicate Initial(s: State) {
    && Sized(s) && s.managers == [] && s.pending == None && s.manifests == []
    && forall i :: 0 <= i < |s.status| ==> s.status[i] == Linking
  }

  lemma InitialInv(s: State)
    requires Initial(s)
    ensures Inv(s)
  {
    assert Reporters(s) == {};
  }

  // ---- Every step keeps it ----

  lemma Subset(a: set<nat>, b: set<nat>)
    requires a <= b
    ensures |a| <= |b| && (|a| == |b| ==> a == b)
  {
    assert b == a + (b - a);
  }

  lemma FilesAdd(files: seq<set<int>>, r: set<nat>, i: nat)
    requires i < |files|
    ensures FilesOf(files, r + {i}) == FilesOf(files, r) + files[i]
  {
    forall f ensures f in FilesOf(files, r + {i}) <==> f in FilesOf(files, r) + files[i] {
      if f in FilesOf(files, r) {
        var j :| j in r && j < |files| && f in files[j];
        assert j in r + {i};
      }
      if f in files[i] {
        assert i in r + {i};
      }
    }
  }

  lemma ReportersAfter(s: State, i: nat)
    requires Sized(s) && i < |s.status| && s.status[i] == Linking
    requires StatusesInv(s)
    ensures Reporters(Report(s, i)) == Reporters(s) + {i} && i !in Reporters(s)
  {
    var t := Report(s, i);
    forall j: nat ensures j in Reporters(t) <==> j in Reporters(s) + {i} {
    }
  }

  // The first to report makes the manager; all report to the same one, before the home shard is called
  lemma ReportForm(s: State, i: nat)
    requires Inv(s) && i < |s.status| && s.status[i] == Linking
    ensures !Called(s) && !Sealed(s) && Target(s) == 0 && (s.managers == [] <==> s.pending == None)
    ensures var t := Report(s, i);
      && Sized(t) && |t.managers| == 1 && |t.status| == |s.status| && t.pending == Some(0)
      && t.managers[0].written == (if s.managers == [] then 0 else s.managers[0].written)
      && t.managers[0].waiters == (if s.managers == [] then [] else s.managers[0].waiters)
      && (forall j: nat :: j < |s.status| && j != i && j != s.home ==> t.status[j] == s.status[j])
      && (i != s.home ==> t.status[i] == Reported(0))
      && (s.status[s.home] == Linking && i != s.home ==> t.status[s.home] == Linking)
      && (s.status[s.home] != Linking || i == s.home ==>
            t.status[s.home] == AwaitingReports(0) || t.status[s.home] == ReadyToSeal(0))
  {
    assert !Called(s) by {
      assert i !in Reporters(s) && i in Shards(|s.status|);
    }
    assert StatusInv(s, s.home);
  }

  lemma ReportKeepsReports(s: State, i: nat)
    requires Inv(s) && i < |s.status| && s.status[i] == Linking
    ensures Sized(Report(s, i)) && ReportsInv(Report(s, i))
  {
    var t, n := Report(s, i), |s.status|;
    ReportForm(s, i);
    ReportersAfter(s, i);
    FilesAdd(s.files, Reporters(s), i);
    assert Reporters(t) <= Shards(n);
    Subset(Reporters(t), Shards(n));
    if s.managers == [] {
      assert FilesOf(s.files, {}) == {};
    }
  }

  lemma ReportKeepsStatuses(s: State, i: nat)
    requires Inv(s) && i < |s.status| && s.status[i] == Linking
    ensures StatusesInv(Report(s, i))
  {
    var t := Report(s, i);
    ReportForm(s, i);
    forall j: nat | j < |t.status| ensures StatusInv(t, j) {
      assert StatusInv(s, j);
    }
  }

  lemma ReportKeepsSemaphore(s: State, i: nat)
    requires Inv(s) && i < |s.status| && s.status[i] == Linking
    ensures SemaphoreInv(Report(s, i))
  {
    var t := Report(s, i);
    ReportForm(s, i);
    forall j: nat ensures j in Passed(t) <==> j in Passed(s) {
      assert j < |s.status| ==> StatusInv(s, j);
    }
    assert Passed(t) == Passed(s);
    assert Passed(s) <= Reporters(s);
    forall j: nat | j < |s.status|
      ensures t.status[j].AwaitingManifest? <==> s.status[j].AwaitingManifest?
      ensures s.status[j].AwaitingManifest? ==> s.managers != []
    {
      assert StatusInv(s, j);
      assert s.status[j].AwaitingManifest? ==> j in Reporters(s);
    }
  }

  lemma ReportKeepsInv(s: State, i: nat)
    requires Inv(s) && i < |s.status| && s.status[i] == Linking
    ensures Inv(Report(s, i))
  {
    ReportKeepsReports(s, i);
    ReportKeepsStatuses(s, i);
    ReportKeepsSemaphore(s, i);
  }

  lemma StartSealStatuses(s: State, m: nat)
    requires Inv(s) && s.status[s.home] == ReadyToSeal(m) && s.pending.Some?
    ensures StatusesInv(StartSeal(s, m))
  {
    var t := StartSeal(s, m);
    assert StatusInv(s, s.home);
    forall j: nat | j < |t.status| ensures StatusInv(t, j) {
      assert StatusInv(s, j);
    }
  }

  lemma StartSealKeepsInv(s: State, m: nat)
    requires Inv(s) && s.status[s.home] == ReadyToSeal(m) && s.pending.Some?
    ensures Inv(StartSeal(s, m))
  {
    var t := StartSeal(s, m);
    assert StatusInv(s, s.home);
    StartSealStatuses(s, m);
    assert Passed(t) == Passed(s) && Reporters(t) == Reporters(s);
  }

  lemma FailSealKeepsInv(s: State)
    requires Inv(s) && s.status[s.home].Sealing?
    ensures Inv(FailSeal(s))
  {
    var t := FailSeal(s);
    assert StatusInv(s, s.home);
    forall j: nat | j < |t.status| ensures StatusInv(t, j) {
      assert StatusInv(s, j);
    }
    assert Passed(t) == Passed(s) && Reporters(t) == Reporters(s);
  }

  lemma DoneKeepsInv(s: State, i: nat, m: nat)
    requires Inv(s) && i < |s.status| && s.status[i] == Released(m)
    ensures Inv(s.(status := s.status[i := Done]))
  {
    var t := s.(status := s.status[i := Done]);
    assert StatusInv(s, i);
    forall j: nat | j < |t.status| ensures StatusInv(t, j) {
      assert StatusInv(s, j);
    }
    assert Passed(t) == Passed(s) && Reporters(t) == Reporters(s);
  }

  // A waiting shard finds a unit, or joins the queue, which it does only before the manifest is written
  lemma AwaitKeepsStatuses(s: State, i: nat, m: nat)
    requires Inv(s) && i < |s.status| && s.status[i] == Reported(m) && m < |s.managers|
    ensures Sized(AwaitManifest(s, i, m)) && StatusesInv(AwaitManifest(s, i, m))
  {
    var t := AwaitManifest(s, i, m);
    assert StatusInv(s, i) && StatusInv(s, s.home);
    UnitLeft(s, i);
    if Sealed(s) {
      NoWaiters(s);
    } else {
      BeforeSeal(s);
    }
    forall j: nat | j < |t.status| ensures StatusInv(t, j) {
      assert StatusInv(s, j);
    }
  }

  lemma PassedAtOnce(s: State, i: nat)
    requires Inv(s) && i < |s.status| && s.status[i] == Reported(0) && s.managers != [] && Sealed(s)
    ensures SemaphoreInv(AwaitManifest(s, i, 0))
  {
    UnitLeft(s, i);
    NoWaiters(s);
    assert Passed(AwaitManifest(s, i, 0)) == Passed(s) + {i};
  }

  lemma QueuedUp(s: State, i: nat)
    requires Inv(s) && i < |s.status| && s.status[i] == Reported(0) && s.managers != [] && !Sealed(s)
    ensures SemaphoreInv(AwaitManifest(s, i, 0))
  {
    BeforeSeal(s);
    assert Passed(AwaitManifest(s, i, 0)) == Passed(s);
    assert i !in s.managers[0].waiters;
  }

  lemma AwaitKeepsSemaphore(s: State, i: nat, m: nat)
    requires Inv(s) && i < |s.status| && s.status[i] == Reported(m) && m < |s.managers|
    ensures SemaphoreInv(AwaitManifest(s, i, m))
  {
    assert StatusInv(s, i);
    if Sealed(s) {
      PassedAtOnce(s, i);
    } else {
      QueuedUp(s, i);
    }
  }

  lemma AwaitKeepsInv(s: State, i: nat, m: nat)
    requires Inv(s) && i < |s.status| && s.status[i] == Reported(m) && m < |s.managers|
    ensures Inv(AwaitManifest(s, i, m))
  {
    AwaitKeepsStatuses(s, i, m);
    AwaitKeepsSemaphore(s, i, m);
    assert StatusInv(s, i);
    assert Reporters(AwaitManifest(s, i, m)) == Reporters(s);
  }

  // Once the manifest is written there is a unit left for each shard that has not passed
  lemma UnitLeft(s: State, i: nat)
    requires Inv(s) && i < |s.status| && s.managers != [] && i !in Passed(s)
    ensures Sealed(s) ==> s.managers[0].written >= 1
  {
    assert Passed(s) <= Shards(|s.status|) - {i};
    Subset(Passed(s), Shards(|s.status|) - {i});
  }

  lemma NoWaiters(s: State)
    requires Inv(s) && Sealed(s) && s.managers != []
    ensures s.managers[0].waiters == []
  {
    if s.managers[0].waiters != [] {
      WaitersUnsealed(s, s.managers[0].waiters[0]);
      assert false;
    }
  }

  lemma WaitersUnsealed(s: State, i: nat)
    requires Inv(s) && s.managers != [] && i in s.managers[0].waiters
    ensures !Sealed(s)
  {
    assert StatusInv(s, i);
  }

  function Members(w: seq<nat>): (r: set<nat>) {
    set x | x in w
  }

  predicate Distinct(w: seq<nat>) {
    forall i, j :: 0 <= i < j < |w| ==> w[i] != w[j]
  }

  lemma {:induction false} DistinctCount(w: seq<nat>)
    requires Distinct(w)
    ensures |Members(w)| == |w|
    decreases |w|
  {
    if w != [] {
      var n := |w| - 1;
      var v := w[..n];
      DistinctCount(v);
      assert w == v + [w[n]] && w[n] !in v;
      assert Members(w) == Members(v) + {w[n]};
    }
  }

  // Nobody has passed before the manifest is written, and there is room for all who wait
  lemma BeforeSeal(s: State)
    requires Inv(s) && s.managers != [] && !Sealed(s)
    ensures s.managers[0].written == 0 && Passed(s) == {}
    ensures |Members(s.managers[0].waiters)| == |s.managers[0].waiters| <= |s.status|
  {
    var w := s.managers[0].waiters;
    if Passed(s) != {} {
      Subset({}, Passed(s));
      assert false;
    }
    DistinctCount(w);
    assert Members(w) <= Shards(|s.status|);
    Subset(Members(w), Shards(|s.status|));
  }

  // Sealing lets every waiter pass and leaves a unit for each of the others
  lemma FinishSealed(s: State, m: nat, manifest: set<int>)
    requires Inv(s) && s.status[s.home] == Sealing(m, manifest) && m < |s.managers|
    ensures var t := FinishSeal(s, m, manifest); var w := s.managers[0].waiters;
      && m == 0 && !Sealed(s) && |w| <= |s.status|
      && t.managers == [s.managers[0].(written := |s.status| - |w|, waiters := [])]
      && |t.status| == |s.status|
      && (forall j: nat :: j < |s.status| ==>
            t.status[j] == if j == s.home then Reported(0) else if j in w then Released(0) else s.status[j])
  {
    assert StatusInv(s, s.home);
    BeforeSeal(s);
    var w := s.managers[0].waiters;
    assert w[..|w|] == w && w[|w|..] == [];
  }

  lemma FinishKeepsSemaphore(s: State, m: nat, manifest: set<int>)
    requires Inv(s) && s.status[s.home] == Sealing(m, manifest) && m < |s.managers|
    ensures SemaphoreInv(FinishSeal(s, m, manifest))
  {
    var t := FinishSeal(s, m, manifest);
    var w := s.managers[0].waiters;
    FinishSealed(s, m, manifest);
    BeforeSeal(s);
    forall j: nat ensures j in Passed(t) <==> j in Members(w) {
      if j < |s.status| {
        assert StatusInv(s, j);
        assert j in w <==> s.status[j].AwaitingManifest?;
        assert j !in Passed(s);
      }
    }
    assert Passed(t) == Members(w);
    forall j: nat ensures !(j < |t.status| && t.status[j].AwaitingManifest?) {
      assert j in w <==> j < |s.status| && s.status[j].AwaitingManifest?;
    }
  }

  lemma FinishSealKeepsInv(s: State, m: nat, manifest: set<int>)
    requires Inv(s) && s.status[s.home] == Sealing(m, manifest) && m < |s.managers|
    ensures Inv(FinishSeal(s, m, manifest))
  {
    var t := FinishSeal(s, m, manifest);
    FinishKeepsSemaphore(s, m, manifest);
    FinishSealed(s, m, manifest);
    assert StatusInv(s, s.home);
    forall j: nat | j < |t.status| ensures StatusInv(t, j) {
      assert StatusInv(s, j);
    }
    assert Reporters(t) == Reporters(s);
  }

  lemma StepKeepsInv(s: State, i: nat, t: State)
    requires Inv(s) && Next(s, i, t)
    ensures Inv(t)
  {
    match s.status[i]
    case Linking => ReportKeepsInv(s, i);
    case ReadyToSeal(m) => StartSealKeepsInv(s, m);
    case Sealing(m, manifest) =>
      if t == FailSeal(s) {
        FailSealKeepsInv(s);
      } else {
        FinishSealKeepsInv(s, m, manifest);
      }
    case Reported(m) => AwaitKeepsInv(s, i, m);
    case Released(m) => DoneKeepsInv(s, i, m);
    case _ =>
  }

  // ---- Whole runs ----

  ghost predicate StepTo(s: State, t: State) {
    exists i: nat :: Next(s, i, t)
  }

  ghost predicate IsRun(run: seq<State>) {
    run != [] && Initial(run[0]) && forall k :: 0 < k < |run| ==> StepTo(run[k - 1], run[k])
  }

  lemma {:induction false} Reachable(run: seq<State>)
    requires IsRun(run)
    ensures Inv(run[|run| - 1]) && run[|run| - 1].files == run[0].files
    decreases |run|
  {
    if |run| == 1 {
      InitialInv(run[0]);
    } else {
      var n := |run| - 1;
      Reachable(run[..n]);
      assert StepTo(run[n - 1], run[n]);
      var i: nat :| Next(run[n - 1], i, run[n]);
      StepKeepsInv(run[n - 1], i, run[n]);
      StepKeepsFiles(run[n - 1], i, run[n]);
    }
  }

  lemma StepKeepsFiles(s: State, i: nat, t: State)
    requires Next(s, i, t)
    ensures t.files == s.files
  {
  }

  // However the shards interleave: one manifest at most, with the files of all shards, written after all have
  // reported; and no call returns before it is
  lemma RunsAreSafe(run: seq<State>)
    requires IsRun(run)
    ensures var s := run[|run| - 1];
      && |s.managers| <= 1 && |s.manifests| <= 1
      && (s.manifests != [] ==> s.manifests[0] == FilesOf(run[0].files, Shards(|run[0].files|)))
      && (s.manifests != [] ==> forall i :: 0 <= i < |s.status| ==> s.status[i] != Linking)
      && (forall i :: 0 <= i < |s.status| && s.status[i] == Done ==> s.manifests != [])
  {
    Reachable(run);
    var s := run[|run| - 1];
    assert StatusInv(s, s.home);
    forall i: nat | i < |s.status| ensures s.status[i] == Done ==> s.manifests != [] {
      assert StatusInv(s, i);
    }
    if s.manifests != [] {
      forall i: nat | i < |s.status| ensures s.status[i] != Linking {
        assert i in Reporters(s);
      }
    }
  }

  // As long as a call is not over some shard can go on, unless the manifest could not be written
  lemma SomeoneCanGoOn(s: State, i: nat) returns (j: nat, t: State)
    requires Inv(s) && i < |s.status| && s.status[i] != Done && s.status[s.home] != Failed
    ensures Next(s, j, t)
  {
    assert StatusInv(s, i) && StatusInv(s, s.home);
    if s.status[i] == Linking {
      j, t := i, Report(s, i);
    } else if s.status[i].Released? {
      j, t := i, s.(status := s.status[i := Done]);
    } else if s.status[i].Reported? {
      HasManager(s, i);
      j, t := i, AwaitManifest(s, i, 0);
    } else if s.status[s.home].ReadyToSeal? {
      HasManager(s, s.home);
      j, t := s.home, StartSeal(s, s.status[s.home].m);
    } else if s.status[s.home].Sealing? {
      HasManager(s, s.home);
      j, t := s.home, FinishSeal(s, 0, s.status[s.home].manifest);
    } else {
      j := SomeoneLinking(s);
      t := Report(s, j);
    }
  }

  lemma HasManager(s: State, i: nat)
    requires Inv(s) && i < |s.status| && s.status[i] != Linking
    ensures |s.managers| == 1
  {
    assert i in Reporters(s);
  }

  lemma SomeoneLinking(s: State) returns (j: nat)
    requires Inv(s) && (s.status[s.home] == Linking || s.status[s.home].AwaitingReports?)
    ensures j < |s.status| && s.status[j] == Linking
  {
    if s.status[s.home] == Linking {
      j := s.home;
    } else {
      if forall k: nat :: k < |s.status| ==> s.status[k] != Linking {
        AllReported(s);
        assert false;
      }
      j :| j < |s.status| && s.status[j] == Linking;
    }
  }

  lemma AllReported(s: State)
    requires forall k: nat :: k < |s.status| ==> s.status[k] != Linking
    ensures Reporters(s) == Shards(|s.status|)
  {
  }

  // Steps a call may still take
  function Weight(x: Status): (w: nat) {
    match x
    case Linking => 7
    case AwaitingReports(_) => 6
    case ReadyToSeal(_) => 5
    case Sealing(_, _) => 4
    case Reported(_) => 3
    case AwaitingManifest(_) => 2
    case Released(_) => 1
    case Done => 0
    case Failed => 0
  }

  function Total(status: seq<Status>): (w: nat) {
    if status == [] then 0 else Weight(status[0]) + Total(status[1..])
  }

  lemma {:induction false} TotalLess(a: seq<Status>, b: seq<Status>, i: int)
    requires |a| == |b| && forall j :: 0 <= j < |a| ==> Weight(b[j]) <= Weight(a[j])
    requires 0 <= i < |a| ==> Weight(b[i]) < Weight(a[i])
    ensures Total(b) + (if 0 <= i < |a| then 1 else 0) <= Total(a)
    decreases |a|
  {
    if a != [] {
      TotalLess(a[1..], b[1..], i - 1);
    }
  }

  lemma ReportLightens(s: State, i: nat, j: nat)
    requires Inv(s) && i < |s.status| && s.status[i] == Linking && j < |s.status|
    ensures var t := Report(s, i); |t.status| == |s.status| && Weight(t.status[j]) <= Weight(s.status[j])
    ensures Weight(Report(s, i).status[i]) < Weight(s.status[i])
  {
    ReportForm(s, i);
    assert StatusInv(s, s.home);
  }

  lemma FinishLightens(s: State, m: nat, manifest: set<int>, j: nat)
    requires Inv(s) && s.status[s.home] == Sealing(m, manifest) && m < |s.managers| && j < |s.status|
    ensures var t := FinishSeal(s, m, manifest); |t.status| == |s.status| && Weight(t.status[j]) <= Weight(s.status[j])
    ensures Weight(FinishSeal(s, m, manifest).status[s.home]) < Weight(s.status[s.home])
  {
    FinishSealed(s, m, manifest);
    assert j in s.managers[0].waiters <==> s.status[j].AwaitingManifest?;
  }

  // The other steps change no other call
  lemma OneLightens(s: State, i: nat, t: State)
    requires Inv(s) && Next(s, i, t) && s.status[i] != Linking && (s.status[i].Sealing? ==> t == FailSeal(s))
    ensures |t.status| == |s.status| && t.status == s.status[i := t.status[i]] && Weight(t.status[i]) < Weight(s.status[i])
  {
  }

  // Each step lightens the load
  lemma StepsAreFinite(s: State, i: nat, t: State)
    requires Inv(s) && Next(s, i, t)
    ensures |t.status| == |s.status| && Total(t.status) < Total(s.status)
  {
    if s.status[i] == Linking {
      ReportLightens(s, i, i);
      forall j: nat | j < |s.status| ensures Weight(t.status[j]) <= Weight(s.status[j]) {
        ReportLightens(s, i, j);
      }
    } else if s.status[i].Sealing? && t != FailSeal(s) {
      FinishLightens(s, s.status[i].m, s.status[i].manifest, i);
      forall j: nat | j < |s.status| ensures Weight(t.status[j]) <= Weight(s.status[j]) {
        FinishLightens(s, s.status[i].m, s.status[i].manifest, j);
      }
    } else {
      OneLightens(s, i, t);
    }
    TotalLess(s.status, t.status, i);
  }

  lemma {:induction false} AllLinking(status: seq<Status>)
    requires forall i :: 0 <= i < |status| ==> status[i] == Linking
    ensures Total(status) == 7 * |status|
    decreases |status|
  {
    if status != [] {
      AllLinking(status[1..]);
    }
  }

  // A run takes at most seven steps a shard
  lemma {:induction false} RunsAreFinite(run: seq<State>)
    requires IsRun(run)
    ensures |run| - 1 + Total(run[|run| - 1].status) <= 7 * |run[0].status|
    decreases |run|
  {
    var n := |run| - 1;
    if n == 0 {
      AllLinking(run[0].status);
    } else {
      var s, t := run[n - 1], run[n];
      Reachable(run[..n]);
      RunsAreFinite(run[..n]);
      assert run[..n][n - 1] == s && run[..n][0] == run[0];
      assert StepTo(s, t);
      var i: nat :| Next(s, i, t);
      StepsAreFinite(s, i, t);
    }
  }
}

/** SyncWithFile, WriteAndReleaseFileSync and ReSyncWithFile: several processes share one
    JSON file through read-write handles.  Every step below is atomic; a reactivation is two
    steps, because the source calls stat before it has the lock. */
module JsonSync {
  import opened JsonTree
  import opened JsonPrinter
  import opened JsonRoundTrip
  import opened Wrappers

  type Id = int

  /** version counts the releases so far; it is history, not something on disk. */
  datatype File = File(text: string, mtime: int, version: nat)

  /** Statted: ReSyncWithFile has compared the modification time (at version `seen`) and
      waits for the lock. */
  datatype Phase = Released | Statted(reload: bool, seen: nat) | Active

  /** stamp is time_of_release; base is the version the tree was last loaded from or written as. */
  datatype Handle = Handle(phase: Phase, tree: Json, stamp: int, base: nat)

  datatype World = World(file: File, lock: Option<Id>, handles: map<Id, Handle>, lastRelease: int)

  datatype Step =
    | Open(h: Id)
    | Edit(h: Id, tree: Json)
    | Release(h: Id, mtime: int, stamp: int)
    | Stat(h: Id)
    | Lock(h: Id)
    | Die(h: Id)

  const Start: World := World(File("", 0, 0), None, map[], 0)

  /** The tree a load under the lock leaves; None where the source aborts. */
  function Reloaded(file: File): Option<Json>
  {
    match Load(file.text)
    case Loaded(t) => if Valid(t) then Some(t) else None
    case Unreadable => None
  }

  /** One step, or None when it cannot happen (or aborts the process). */
  function Next(w: World, s: Step): Option<World>
  {
    var h := s.h;
    match s
    case Open(_) =>
      // open, flock, stat, read: the file is read under the lock
      if h in w.handles || w.lock.Some? || Reloaded(w.file).None? then None
      else Some(w.(lock := Some(h),
                   handles := w.handles[h := Handle(Active, Reloaded(w.file).value, 0, w.file.version)]))
    case Edit(_, tree) =>
      if h !in w.handles || !w.handles[h].phase.Active? then None
      else Some(w.(handles := w.handles[h := w.handles[h].(tree := tree)]))
    case Release(_, mtime, stamp) =>
      // Validate, ftruncate, write, gettimeofday, close
      if h !in w.handles || !w.handles[h].phase.Active? || !Valid(w.handles[h].tree) then None
      else if mtime < w.lastRelease || stamp < mtime then None
      else
        var v := w.file.version + 1;
        Some(World(File(Text(w.handles[h].tree), mtime, v), None,
                   w.handles[h := Handle(Released, w.handles[h].tree, stamp, v)], stamp))
    case Stat(_) =>
      if h !in w.handles || !w.handles[h].phase.Released? then None
      else Some(w.(handles := w.handles[h := w.handles[h].(
                     phase := Statted(w.file.mtime > w.handles[h].stamp, w.file.version))]))
    case Lock(_) =>
      if h !in w.handles || !w.handles[h].phase.Statted? || w.lock.Some? then None
      else if w.handles[h].phase.reload then
        if Reloaded(w.file).None? then None
        else Some(w.(lock := Some(h),
                     handles := w.handles[h := w.handles[h].(phase := Active, tree := Reloaded(w.file).value,
                                                             base := w.file.version)]))
      else Some(w.(lock := Some(h), handles := w.handles[h := w.handles[h].(phase := Active)]))
    case Die(_) =>
      if h !in w.handles then None
      else Some(w.(lock := if w.lock == Some(h) then None else w.lock, handles := w.handles - {h}))
  }

  function Run(w: World, steps: seq<Step>): Option<World>
    decreases |steps|
  {
    if steps == [] then Some(w)
    else
      match Next(w, steps[0])
      case None => None
      case Some(v) => Run(v, steps[1..])
  }

  // ---------------------------------------------------------------- mutual exclusion

  predicate IsActive(w: World, h: Id) { h in w.handles && w.handles[h].phase.Active? }

  /** The active handle is the one that holds the lock. */
  ghost predicate Exclusive(w: World)
  {
    forall h :: IsActive(w, h) <==> w.lock == Some(h)
  }

  lemma ExclusiveNext(w: World, s: Step)
    requires Exclusive(w) && Next(w, s).Some?
    ensures Exclusive(Next(w, s).value)
  {
    var v := Next(w, s).value;
    forall h ensures IsActive(v, h) <==> v.lock == Some(h) {
      assert IsActive(w, h) <==> w.lock == Some(h);
      assert IsActive(w, s.h) <==> w.lock == Some(s.h);
    }
  }

  lemma {:induction false} RunExclusive(w: World, steps: seq<Step>)
    requires Exclusive(w) && Run(w, steps).Some?
    ensures Exclusive(Run(w, steps).value)
    decreases |steps|
  {
    if steps != [] {
      ExclusiveNext(w, steps[0]);
      RunExclusive(Next(w, steps[0]).value, steps[1..]);
    }
  }

  /** In every run, whatever the clock and the interleaving, at most one handle is active. */
  lemma MutualExclusion(steps: seq<Step>)
    requires Run(Start, steps).Some?
    ensures var w := Run(Start, steps).value; forall g, h :: IsActive(w, g) && IsActive(w, h) ==> g == h
  {
    RunExclusive(Start, steps);
    var w := Run(Start, steps).value;
    forall g, h | IsActive(w, g) && IsActive(w, h) ensures g == h {
      assert w.lock == Some(g) && w.lock == Some(h);
    }
  }

  // ---------------------------------------------------------------- freshness

  /** The clock ticks between one release and the next write. */
  predicate Ticks(w: World, s: Step) { s.Release? ==> w.lastRelease < s.mtime }

  /** Every release of the run came after a tick of the clock. */
  predicate Ticking(w: World, steps: seq<Step>)
    decreases |steps|
  {
    steps != [] ==>
      Ticks(w, steps[0]) && (Next(w, steps[0]).Some? ==> Ticking(Next(w, steps[0]).value, steps[1..]))
  }

  /** A handle that is not active is up to date exactly when the modification time has not
      passed its release stamp, and then its tree is what the file holds. */
  ghost predicate Dated(file: File, handle: Handle)
  {
    && handle.base <= file.version
    && (handle.base == file.version <==> file.mtime <= handle.stamp)
    && (handle.base == file.version ==> Valid(handle.tree) && file.text == Text(handle.tree))
    && (handle.phase.Statted? ==> handle.phase.seen <= file.version)
    && (handle.phase.Statted? && handle.phase.reload ==> handle.base < file.version)
    && (handle.phase.Statted? && !handle.phase.reload ==> handle.base == handle.phase.seen)
  }

  ghost predicate Consistent(w: World)
  {
    && Exclusive(w)
    && 0 <= w.lastRelease && w.file.mtime <= w.lastRelease
    && (forall h :: h in w.handles ==> w.handles[h].stamp <= w.lastRelease)
    && (forall h :: h in w.handles && !IsActive(w, h) ==> Dated(w.file, w.handles[h]))
    && (forall h :: IsActive(w, h) ==> w.handles[h].base <= w.file.version)
  }

  lemma ConsistentNext(w: World, s: Step)
    requires Consistent(w) && Ticks(w, s) && Next(w, s).Some?
    ensures Consistent(Next(w, s).value)
  {
    var v := Next(w, s).value;
    ExclusiveNext(w, s);
    assert IsActive(w, s.h) <==> w.lock == Some(s.h);
    forall h | h in v.handles
      ensures v.handles[h].stamp <= v.lastRelease
      ensures !IsActive(v, h) ==> Dated(v.file, v.handles[h])
      ensures IsActive(v, h) ==> v.handles[h].base <= v.file.version
    {
      if h == s.h {
        assert s.Stat? ==> Dated(w.file, w.handles[h]);
      } else {
        assert v.handles[h] == w.handles[h];
        assert IsActive(w, h) <==> w.lock == Some(h);
      }
    }
  }

  lemma {:induction false} RunConsistent(w: World, steps: seq<Step>)
    requires Consistent(w) && Run(w, steps).Some? && Ticking(w, steps)
    ensures Consistent(Run(w, steps).value)
    decreases |steps|
  {
    if steps != [] {
      ConsistentNext(w, steps[0]);
      RunConsistent(Next(w, steps[0]).value, steps[1..]);
    }
  }

  /** The active handle builds on the newest version of the file. */
  predicate UpToDate(w: World, h: Id)
    requires h in w.handles
  {
    w.handles[h].base == w.file.version
  }

  /** When the lock comes, the handle is up to date exactly if it reloads or the modification
      time, looked at again under the lock, has still not passed its release stamp; and for a
      handle that does not reload, exactly if nobody wrote between its stat and its flock. */
  lemma LockFreshness(steps: seq<Step>, h: Id)
    requires Run(Start, steps).Some? && Ticking(Start, steps)
    requires Next(Run(Start, steps).value, Lock(h)).Some?
    ensures var w := Run(Start, steps).value;
            var v := Next(w, Lock(h)).value;
            var before := w.handles[h];
            && h in v.handles
            && (UpToDate(v, h) <==> before.phase.reload || w.file.mtime <= before.stamp)
            && (!before.phase.reload ==> (UpToDate(v, h) <==> before.phase.seen == w.file.version))
  {
    RunConsistent(Start, steps);
    var w := Run(Start, steps).value;
    assert Dated(w.file, w.handles[h]);
  }

  /** An up to date reactivation leaves the handle with the very tree the file holds, as long
      as a tree it keeps without reloading can be read back at all. */
  lemma ReactivatedTree(steps: seq<Step>, h: Id)
    requires Run(Start, steps).Some? && Ticking(Start, steps)
    requires Next(Run(Start, steps).value, Lock(h)).Some?
    requires UpToDate(Next(Run(Start, steps).value, Lock(h)).value, h)
    ensures var w := Run(Start, steps).value;
            var v := Next(w, Lock(h)).value;
            var tree := v.handles[h].tree;
            && (!w.handles[h].phase.reload ==> v.file.text == Text(tree))
            && (Load(v.file.text) == Loaded(tree)
                <==> w.handles[h].phase.reload || (QuoteFreeTree(tree) && SixDecimalTree(tree)))
  {
    RunConsistent(Start, steps);
    var w := Run(Start, steps).value;
    assert Dated(w.file, w.handles[h]);
    if !w.handles[h].phase.reload {
      RoundTrip(w.handles[h].tree);
    }
  }

  /** No other handle writes between a stat that finds nothing new and its flock. */
  predicate Undisturbed(w: World, s: Step)
  {
    s.Lock? && s.h in w.handles && w.handles[s.h].phase.Statted? && !w.handles[s.h].phase.reload
    ==> w.handles[s.h].phase.seen == w.file.version
  }

  predicate Quiet(w: World, steps: seq<Step>)
    decreases |steps|
  {
    steps != [] ==>
      Undisturbed(w, steps[0]) && (Next(w, steps[0]).Some? ==> Quiet(Next(w, steps[0]).value, steps[1..]))
  }

  ghost predicate AllUpToDate(w: World) { forall h :: IsActive(w, h) ==> UpToDate(w, h) }

  lemma {:induction false} RunUpToDate(w: World, steps: seq<Step>)
    requires Consistent(w) && AllUpToDate(w)
    requires Run(w, steps).Some? && Ticking(w, steps) && Quiet(w, steps)
    ensures AllUpToDate(Run(w, steps).value)
    decreases |steps|
  {
    if steps != [] {
      var s := steps[0];
      var v := Next(w, s).value;
      ConsistentNext(w, s);
      assert IsActive(w, s.h) <==> w.lock == Some(s.h);
      if s.Lock? {
        assert Dated(w.file, w.handles[s.h]);
      }
      forall h | IsActive(v, h) ensures UpToDate(v, h) {
        assert h != s.h ==> IsActive(w, h) && w.lock == Some(h);
      }
      RunUpToDate(v, steps[1..]);
    }
  }

  /** In a run of undisturbed reactivations under a ticking clock every active handle is up to
      date, so each release is built on the release just before it and overwrites no other
      handle's update. */
  lemma NoLostUpdate(steps: seq<Step>)
    requires Run(Start, steps).Some? && Ticking(Start, steps) && Quiet(Start, steps)
    ensures var w := Run(Start, steps).value; forall h :: IsActive(w, h) ==> UpToDate(w, h)
  {
    RunUpToDate(Start, steps);
  }

  // ---------------------------------------------------------------- one shared tree

  predicate Clean(t: Json) { QuoteFreeTree(t) && SixDecimalTree(t) }

  /** A handle that is new, or that has found the file newer than its stamp. */
  predicate Fetches(w: World, s: Step)
  {
    (s.Open? && s.h !in w.handles)
    || (s.Lock? && s.h in w.handles && w.handles[s.h].phase.Statted? && w.handles[s.h].phase.reload)
  }

  /** While the lock is free, a handle that fetches the file's tree gets it, and touches
      neither the file nor any other handle. */
  lemma FetchedTree(w: World, s: Step, t: Json)
    requires Fetches(w, s) && w.lock.None?
    requires Valid(t) && Clean(t) && w.file.text == Text(t)
    ensures Next(w, s).Some?
    ensures var v := Next(w, s).value;
            && IsActive(v, s.h) && v.handles[s.h].tree == t && v.lock == Some(s.h) && v.file == w.file
            && v.handles - {s.h} == w.handles - {s.h}
  {
    RoundTrip(t);
  }

  /** Whatever the file holds, the handle's tree is what loading it gives, and a file that does
      not load is not fetched. */
  lemma FetchedAlways(w: World, s: Step)
    requires Fetches(w, s) && w.lock.None?
    ensures match Next(w, s)
            case Some(v) => IsActive(v, s.h) && v.file == w.file && Load(w.file.text) == Loaded(v.handles[s.h].tree)
            case None => Load(w.file.text) == Unreadable || !Valid(Load(w.file.text).tree)
  {
  }

  /** Whatever the trees: in a run of undisturbed reactivations under a ticking clock a handle that
      becomes active holds what the file loads as or, having kept its tree, the tree whose text
      the file holds. */
  lemma AcquiredTree(steps: seq<Step>, s: Step)
    requires Run(Start, steps).Some? && Ticking(Start, steps) && (s.Open? || s.Lock?)
    requires Undisturbed(Run(Start, steps).value, s) && Next(Run(Start, steps).value, s).Some?
    ensures var w := Run(Start, steps).value;
            var v := Next(w, s).value;
            var tree := v.handles[s.h].tree;
            && IsActive(v, s.h) && UpToDate(v, s.h) && v.file == w.file
            && (if Fetches(w, s) then Load(v.file.text) == Loaded(tree)
                else tree == w.handles[s.h].tree && v.file.text == Text(tree))
  {
    var w := Run(Start, steps).value;
    RunConsistent(Start, steps);
    if Fetches(w, s) {
      FetchedAlways(w, s);
    } else {
      assert Dated(w.file, w.handles[s.h]);
    }
  }

  /** One tree in one memory: whoever holds it works on a draft, which is the tree when it is
      given back. */
  datatype Register = Register(tree: Json, holder: Option<Id>, draft: Json)

  function RegisterAfter(r: Register, s: Step): Register
  {
    match s
    case Open(h) => Register(r.tree, Some(h), r.tree)
    case Lock(h) => Register(r.tree, Some(h), r.tree)
    case Edit(_, tree) => r.(draft := tree)
    case Release(_, _, _) => Register(r.draft, None, r.draft)
    case Stat(_) => r
    case Die(h) => if r.holder == Some(h) then r.(holder := None) else r
  }

  function RegisterRun(r: Register, steps: seq<Step>): Register
    decreases |steps|
  {
    if steps == [] then r else RegisterRun(RegisterAfter(r, steps[0]), steps[1..])
  }

  /** The file holds the register's tree and the active handle its draft. */
  ghost predicate Shows(w: World, r: Register)
  {
    && w.lock == r.holder
    && Load(w.file.text) == Loaded(r.tree)
    && (forall h :: IsActive(w, h) ==> w.handles[h].tree == r.draft)
  }

  ghost predicate AllClean(w: World, r: Register)
  {
    && Valid(r.tree) && Clean(r.tree)
    && (forall h :: h in w.handles ==> Clean(w.handles[h].tree))
  }

  predicate CleanEdits(steps: seq<Step>)
  {
    forall i :: 0 <= i < |steps| && steps[i].Edit? ==> Clean(steps[i].tree)
  }

  /** A handle that keeps its tree keeps the tree the file holds. */
  lemma KeptTree(w: World, r: Register, h: Id)
    requires Consistent(w) && Shows(w, r) && AllClean(w, r) && Undisturbed(w, Lock(h))
    requires Next(w, Lock(h)).Some? && !w.handles[h].phase.reload
    ensures w.handles[h].tree == r.tree
  {
    assert Dated(w.file, w.handles[h]);
    RoundTrip(w.handles[h].tree);
  }

  lemma ShowsNext(w: World, r: Register, s: Step)
    requires Consistent(w) && Shows(w, r) && AllClean(w, r)
    requires Ticks(w, s) && Undisturbed(w, s) && Next(w, s).Some?
    requires s.Edit? ==> Clean(s.tree)
    ensures Shows(Next(w, s).value, RegisterAfter(r, s)) && AllClean(Next(w, s).value, RegisterAfter(r, s))
  {
    hide Load, Text;
    var v := Next(w, s).value;
    assert IsActive(w, s.h) <==> w.lock == Some(s.h);
    forall h | IsActive(v, h) && h != s.h ensures v.handles[h].tree == RegisterAfter(r, s).draft {
      assert IsActive(w, h) && w.lock == Some(h);
    }
    if s.Lock? && !w.handles[s.h].phase.reload {
      KeptTree(w, r, s.h);
    }
    if s.Release? {
      RoundTrip(w.handles[s.h].tree);
    }
  }

  lemma {:induction false} RunShows(w: World, r: Register, steps: seq<Step>)
    requires Consistent(w) && Shows(w, r) && AllClean(w, r) && CleanEdits(steps)
    requires Run(w, steps).Some? && Ticking(w, steps) && Quiet(w, steps)
    ensures Shows(Run(w, steps).value, RegisterRun(r, steps))
    decreases |steps|
  {
    hide Next, Consistent, Shows, AllClean;
    if steps != [] {
      ConsistentNext(w, steps[0]);
      ShowsNext(w, r, steps[0]);
      RunShows(Next(w, steps[0]).value, RegisterAfter(r, steps[0]), steps[1..]);
    }
  }

  /** In a run of undisturbed reactivations under a ticking clock the handles together are one
      tree behind one lock: the file loads as the last tree given back, and the active handle
      holds that tree with its own edits, as long as the edits can be read back at all. */
  lemma OneTree(steps: seq<Step>)
    requires Run(Start, steps).Some? && Ticking(Start, steps) && Quiet(Start, steps) && CleanEdits(steps)
    ensures var w := Run(Start, steps).value;
            var r := RegisterRun(Register(Empty, None, Empty), steps);
            && Load(w.file.text) == Loaded(r.tree)
            && w.lock == r.holder
            && (forall h :: IsActive(w, h) ==> w.handles[h].tree == r.draft)
  {
    LoadEmpty();
    RunShows(Start, Register(Empty, None, Empty), steps);
  }

  /** A run given by the worlds it passes through. */
  lemma {:induction false} Follow(worlds: seq<World>, steps: seq<Step>, rest: seq<Step>)
    requires |worlds| == |steps| + 1
    requires forall i :: 0 <= i < |steps| ==>
               Next(worlds[i], steps[i]) == Some(worlds[i + 1]) && Ticks(worlds[i], steps[i])
    ensures Run(worlds[0], steps + rest) == Run(worlds[|steps|], rest)
    ensures Ticking(worlds[0], steps + rest) <==> Ticking(worlds[|steps|], rest)
    decreases |steps|
  {
    hide Next;
    if steps == [] {
      assert steps + rest == rest;
    } else {
      assert (steps + rest)[1..] == steps[1..] + rest;
      Follow(worlds[1..], steps[1..], rest);
    }
  }

  const A: Json := Seq([Assign("a", Null)])
  const B: Json := Seq([Assign("b", Null)])

  /** Handle 0 creates the file, handle 1 writes B to it and then finds nothing new. */
  const Prelude: seq<Step> := [Open(0), Release(0, 1, 1), Open(1), Edit(1, B), Release(1, 2, 2), Stat(1)]

  ghost predicate AfterPrelude(w: World)
  {
    && w.file == File(Text(B), 2, 2) && w.lock.None? && w.lastRelease == 2
    && 0 in w.handles && w.handles[0] == Handle(Released, Empty, 1, 1)
    && 1 in w.handles && w.handles[1] == Handle(Statted(false, 2), B, 2, 2)
  }

  /** Before handle 1 gets the lock, handle 0 comes, reloads, and writes A. */
  const Intrusion: seq<Step> := [Stat(0), Lock(0), Edit(0, A), Release(0, 3, 3), Lock(1)]

  lemma LoadEmpty()
    ensures Load("") == Loaded(Empty) && Load(Text(Empty)) == Loaded(Empty)
  {
  }

  lemma PreludeRun(rest: seq<Step>) returns (w: World)
    ensures AfterPrelude(w)
    ensures Run(Start, Prelude + rest) == Run(w, rest)
    ensures Ticking(Start, Prelude + rest) <==> Ticking(w, rest)
  {
    hide Load, Text, Run, Ticking;
    LoadEmpty();
    var w1 := Next(Start, Open(0)).value;
    var w2 := Next(w1, Release(0, 1, 1)).value;
    var w3 := Next(w2, Open(1)).value;
    var w4 := Next(w3, Edit(1, B)).value;
    var w5 := Next(w4, Release(1, 2, 2)).value;
    w := Next(w5, Stat(1)).value;
    Follow([Start, w1, w2, w3, w4, w5, w], Prelude, rest);
  }

  lemma IntrusionRun(w: World) returns (v: World)
    requires AfterPrelude(w)
    ensures Run(w, Intrusion) == Some(v) && Ticking(w, Intrusion)
    ensures IsActive(v, 1) && v.handles[1].tree == B && v.file.text == Text(A) && !UpToDate(v, 1)
  {
    hide Load, Text;
    RoundTrip(B);
    var w7 := Next(w, Stat(0)).value;
    var w8 := Next(w7, Lock(0)).value;
    var w9 := Next(w8, Edit(0, A)).value;
    var w10 := Next(w9, Release(0, 3, 3)).value;
    v := Next(w10, Lock(1)).value;
    Follow([w, w7, w8, w9, w10, v], Intrusion, []);
    assert Intrusion + [] == Intrusion;
  }

  /** The race is real although the clock ticks throughout: handle 1 ends up active on B
      while the file holds A, so its next release overwrites A unseen. */
  lemma LostUpdateRun()
    ensures Ticking(Start, Prelude + Intrusion) && Run(Start, Prelude + Intrusion).Some?
    ensures var v := Run(Start, Prelude + Intrusion).value;
            IsActive(v, 1) && v.handles[1].tree == B && v.file.text == Text(A) && !UpToDate(v, 1)
  {
    var w := PreludeRun(Intrusion);
    var v := IntrusionRun(w);
  }
}

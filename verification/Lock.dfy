/**
  The lock-file takeover protocol of `lockfile.rs`, as interleaved steps of any finite
  set of processes over three shared things: the lock file, the watch files and the
  operating system's liveness test.  Every step is one file operation of one process, which runs
  one acquire or release at a time, and any number of renewals beside it.
 */
module LockProtocol {
  import opened Wrappers

  type Pid = nat

  /** Where a process stands inside `acquire` or `release`. */
  datatype Pc =
    | Idle
    // acquire: the watch file is written from here up to and including Unwatching
    | Reaping
    | Creating
    | Inspecting
    | Bidding
    | Gating
    | Armed                           // the gate saw a dead owner; the rename is next
    | Settling                        // the rename is done; sleep, then inspect
    | Scanning(checked: set<Pid>)     // inspected as mine; looking for live foreign watches
    | Unwatching                      // the answer is known; the watch file goes next
    // release
    | Releasing
    | Unlinking                       // inspected as mine; remove_file is next
    | Clearing                        // the held flag goes next

  /**
    `lock` is the pid recorded in the lock file, if the file exists.  An unreadable record
    is a pid outside `alive`, since the code treats both as a dead owner.
   */
  datatype State = State(
    procs: set<Pid>, alive: set<Pid>,
    lock: Option<Pid>, watches: set<Pid>,
    pc: map<Pid, Pc>, held: set<Pid>,
    renewing: multiset<Pid>)          // renewals that found the lock held and have yet to rename

  datatype Action =
    | Acquire(p: Pid) | ReapWatch(p: Pid, q: Pid) | EndReap(p: Pid)
    | Create(p: Pid) | Inspect(p: Pid) | Bid(p: Pid) | Gate(p: Pid)
    | Rename(p: Pid) | Settle(p: Pid) | Check(p: Pid, q: Pid) | Win(p: Pid) | Unwatch(p: Pid)
    | RenewCheck(p: Pid) | RenewRename(p: Pid) | Release(p: Pid) | ReleaseInspect(p: Pid) | Unlink(p: Pid) | Clear(p: Pid)
    | Die(p: Pid)

  predicate OwnerDead(s: State) {
    s.lock.Some? && s.lock.value !in s.alive
  }

  function At(s: State, p: Pid, pc: Pc): State {
    s.(pc := s.pc[p := pc])
  }

  /** One step; an action that is not enabled leaves the state as it is. */
  function Step(s: State, a: Action): State {
    var p := a.p;
    if p !in s.alive || p !in s.pc then s else
    match (s.pc[p], a)
    case (Idle, Acquire(_)) => At(s.(watches := s.watches + {p}), p, Reaping)
    case (Reaping, ReapWatch(_, q)) =>
      if q != p && q !in s.alive then s.(watches := s.watches - {q}) else s
    case (Reaping, EndReap(_)) => At(s, p, Creating)
    case (Creating, Create(_)) =>
      if s.lock.None?
      then At(s.(lock := Some(p), held := s.held + {p}), p, Unwatching)
      else At(s, p, Inspecting)
    case (Inspecting, Inspect(_)) => At(s, p, if OwnerDead(s) then Bidding else Unwatching)
    case (Bidding, Bid(_)) => At(s, p, Gating)
    case (Gating, Gate(_)) =>
      At(s, p, if OwnerDead(s) && s.lock.value != p then Armed else Unwatching)
    case (Armed, Rename(_)) => At(s.(lock := Some(p)), p, Settling)
    case (Settling, Settle(_)) =>
      At(s, p, if s.lock == Some(p) then Scanning({}) else Unwatching)
    case (Scanning(c), Check(_, q)) =>
      if q == p || q !in s.procs then s
      else if q in s.watches && q in s.alive then At(s, p, Settling)
      else At(s.(watches := s.watches - {q}), p, Scanning(c + {q}))
    case (Scanning(c), Win(_)) =>
      if s.procs - {p} <= c then At(s.(held := s.held + {p}), p, Unwatching) else s
    case (Unwatching, Unwatch(_)) => At(s.(watches := s.watches - {p}), p, Idle)
    case (Idle, Release(_)) => if p in s.held then At(s, p, Releasing) else s
    case (Releasing, ReleaseInspect(_)) =>
      At(s, p, if s.lock == Some(p) then Unlinking else Clearing)
    case (Unlinking, Unlink(_)) => At(s.(lock := None), p, Clearing)
    case (Clearing, Clear(_)) => At(s.(held := s.held - {p}), p, Idle)
    case (_, RenewCheck(_)) => if p in s.held then s.(renewing := s.renewing + multiset{p}) else s
    case (_, RenewRename(_)) =>
      if p in s.renewing then s.(lock := Some(p), renewing := s.renewing - multiset{p}) else s
    case (_, Die(_)) => s.(alive := s.alive - {p})
    case _ => s
  }

  function Run(s: State, acts: seq<Action>): State {
    if acts == [] then s else Step(Run(s, acts[..|acts| - 1]), acts[|acts| - 1])
  }

  /** Any leftovers of dead processes may be lying around at the start. */
  predicate Init(s: State) {
    && s.pc.Keys == s.procs
    && s.alive <= s.procs
    && (s.lock.Some? ==> s.lock.value !in s.alive)
    && s.watches !! s.alive
    && s.held == {} && s.renewing == multiset{}
    && (forall p :: p in s.procs ==> s.pc[p] == Idle)
  }

  /**
    The deaths that break exclusion: the lock file names the process, which races for it, and
    another live one is scanning, having inspected the file before it was replaced.
   */
  predicate BadDeath(s: State, p: Pid) {
    && s.pc.Keys == s.procs && p in s.alive && p in s.pc && s.lock == Some(p) && Racing(s.pc[p])
    && exists q :: q in s.alive && q in s.pc && q != p && s.pc[q].Scanning?
  }

  /**
    The renewals that break exclusion: the process no longer races for the lock, and another live
    one holds it or is scanning.
   */
  predicate BadRenewal(s: State, p: Pid) {
    && s.pc.Keys == s.procs && p in s.alive && p in s.pc && p in s.renewing && !Racing(s.pc[p])
    && exists q :: q in s.alive && q in s.pc && q != p && (Holds(s, q) || s.pc[q].Scanning?)
  }

  predicate Bad(s: State, a: Action) {
    (a.Die? && BadDeath(s, a.p)) || (a.RenewRename? && BadRenewal(s, a.p))
  }

  /** No bad death and no bad renewal happens in the run. */
  predicate Orderly(s: State, acts: seq<Action>) {
    acts == [] ||
    (var before := acts[..|acts| - 1];
     var last := acts[|acts| - 1];
     Orderly(s, before) && !Bad(Run(s, before), last))
  }

  /** A renewal renames for a process that has let go of the lock and has not replaced the file again. */
  predicate Late(s: State, a: Action) {
    a.RenewRename? && a.p in s.alive && a.p in s.pc && a.p in s.renewing && !Holds(s, a.p) && !Replaced(s.pc[a.p])
  }

  /** No renewal of the run is late. */
  predicate Timely(s: State, acts: seq<Action>) {
    acts == [] ||
    (var before := acts[..|acts| - 1];
     var last := acts[|acts| - 1];
     Timely(s, before) && !Late(Run(s, before), last))
  }

  /** No process of the run dies while its own watch file exists. */
  predicate Unwatched(s: State, acts: seq<Action>) {
    acts == [] ||
    (var before := acts[..|acts| - 1];
     var last := acts[|acts| - 1];
     Unwatched(s, before) && (last.Die? ==> last.p !in Run(s, before).watches))
  }

  /** Between a successful acquire and the removal of the file by release. */
  predicate Holds(s: State, p: Pid) {
    p in s.alive && p in s.held && p in s.pc && s.pc[p] != Clearing
  }

  predicate Attempting(pc: Pc) {
    pc.Reaping? || pc.Creating? || pc.Inspecting? || pc.Bidding? || pc.Gating? || Racing(pc) || pc.Unwatching?
  }

  predicate Racing(pc: Pc) {
    pc.Armed? || Replaced(pc)
  }

  predicate Replaced(pc: Pc) {
    pc.Settling? || pc.Scanning?
  }

  ghost predicate Inv(s: State) {
    && s.pc.Keys == s.procs
    && s.alive <= s.procs
    && (forall p :: p in s.alive ==> (p in s.watches <==> Attempting(s.pc[p])))
    && (forall p :: p in s.alive && (s.pc[p].Releasing? || s.pc[p].Unlinking? || s.pc[p].Clearing?) ==> p in s.held)
    // nobody races while there is no lock file
    && (s.lock.None? ==> forall q :: q in s.alive ==> !Racing(s.pc[q]))
    // a holder is named by the lock file, and nobody races against it
    && (forall p: Pid :: Holds(s, p) ==>
          s.lock == Some(p) && forall q :: q in s.alive ==> !Racing(s.pc[q]))
    // while somebody scans, the file names a live process that races for it
    && (forall p :: p in s.alive && s.pc[p].Scanning? ==>
          s.lock.Some? && s.lock.value in s.alive && Racing(s.pc[s.lock.value]))
    // a process checked by a scan does not race again while the scan goes on
    && (forall p, q :: p in s.alive && s.pc[p].Scanning? && q in s.pc[p].checked && q in s.alive ==> !Racing(s.pc[q]))
  }

  /** A live process named by the lock file holds it or is settling it. */
  predicate Named(s: State) {
    s.lock.Some? && s.lock.value in s.alive ==>
      s.lock.value in s.pc && (Holds(s, s.lock.value) || Replaced(s.pc[s.lock.value]))
  }

  /** A step that moves p to a place outside the race and leaves the lock file and the holders alone. */
  lemma QuietKeepsInv(s: State, t: State, p: Pid, x: Pc)
    requires Inv(s) && p in s.alive
    requires t == s.(pc := s.pc[p := x], watches := t.watches)
    requires forall q :: q in s.alive && q != p ==> (q in t.watches <==> q in s.watches)
    requires p in t.watches <==> Attempting(x)
    requires !Racing(x) && (Racing(s.pc[p]) ==> s.lock != Some(p))
    requires x.Releasing? || x.Unlinking? ==> p in s.held
    requires x != Clearing && s.pc[p] != Clearing
    ensures Inv(t)
  {
    assert forall q :: Holds(t, q) <==> Holds(s, q);
  }

  lemma EntryKeepsInv(s: State, a: Action)
    requires Inv(s)
    requires a.Acquire? || a.ReapWatch? || a.EndReap? || a.Inspect? || a.Bid? || a.Unwatch?
    ensures Inv(Step(s, a))
  {
    var t := Step(s, a);
    if t != s {
      QuietKeepsInv(s, t, a.p, t.pc[a.p]);
    }
  }

  lemma CreateKeepsInv(s: State, a: Action)
    requires Inv(s) && (a.Create? || a.Gate?)
    ensures Inv(Step(s, a))
  {
    var t := Step(s, a);
    if t != s && t.lock == s.lock && !Racing(t.pc[a.p]) {
      QuietKeepsInv(s, t, a.p, t.pc[a.p]);
    } else if t != s {
      assert forall q :: !Holds(s, q);
      assert !Holds(s, a.p);
      assert forall q :: q != a.p && Holds(t, q) ==> Holds(s, q);
    }
  }

  lemma RenameKeepsInv(s: State, a: Action)
    requires Inv(s) && a.Rename?
    ensures Inv(Step(s, a))
  {
    var t := Step(s, a);
    assert forall q :: Holds(t, q) ==> Holds(s, q);
  }

  lemma SettleKeepsInv(s: State, a: Action)
    requires Inv(s) && a.Settle?
    ensures Inv(Step(s, a))
  {
    var t := Step(s, a);
    if t != s && t.pc[a.p] == Unwatching {
      QuietKeepsInv(s, t, a.p, Unwatching);
    } else {
      assert forall q :: Holds(t, q) ==> Holds(s, q);
    }
  }

  lemma CheckKeepsInv(s: State, a: Action)
    requires Inv(s) && a.Check?
    ensures Inv(Step(s, a))
  {
    var t := Step(s, a);
    assert forall q :: Holds(t, q) ==> Holds(s, q);
  }

  /** The scan has seen every other process out of the race, so the replaced file is the scanner's own. */
  lemma WinKeepsInv(s: State, a: Action)
    requires Inv(s) && a.Win?
    ensures Inv(Step(s, a))
  {
    var t := Step(s, a);
    if t != s {
      var owner := s.lock.value;
      var checked := s.pc[a.p].checked;
      assert owner !in checked;
      assert forall q :: Holds(t, q) ==> q == a.p || Holds(s, q);
      assert forall q :: q in t.alive && q != a.p ==> q in checked;
    }
  }

  lemma ReleaseKeepsInv(s: State, a: Action)
    requires Inv(s) && (a.Release? || a.ReleaseInspect? || a.Unlink? || a.Clear?)
    ensures Inv(Step(s, a))
  {
    var t := Step(s, a);
    if t != s {
      var p := a.p;
      assert s.pc[p] != Clearing ==> Holds(s, p);
      if a.Release? || a.ReleaseInspect? {
        QuietKeepsInv(s, t, p, t.pc[p]);
      } else {
        assert forall q :: Holds(t, q) ==> Holds(s, q);
      }
    }
  }

  lemma RenewCheckKeepsInv(s: State, a: Action)
    requires Inv(s) && a.RenewCheck?
    ensures Inv(Step(s, a))
  {
    var t := Step(s, a);
    assert t == s.(renewing := t.renewing);
    assert forall q :: Holds(t, q) <==> Holds(s, q);
  }

  lemma RenewRenameKeepsInv(s: State, a: Action)
    requires Inv(s) && a.RenewRename? && !BadRenewal(s, a.p)
    ensures Inv(Step(s, a))
  {
    var t := Step(s, a);
    if t != s {
      assert t == s.(renewing := t.renewing, lock := Some(a.p));
      assert forall q :: Holds(t, q) <==> Holds(s, q);
    }
  }

  lemma DieKeepsInv(s: State, a: Action)
    requires Inv(s) && a.Die? && !BadDeath(s, a.p)
    ensures Inv(Step(s, a))
  {
    var t := Step(s, a);
    assert forall q :: Holds(t, q) ==> Holds(s, q);
  }

  lemma StepKeepsInv(s: State, a: Action)
    requires Inv(s)
    requires !Bad(s, a)
    ensures Inv(Step(s, a))
  {
    match a
    case Create(_) => CreateKeepsInv(s, a);
    case Gate(_) => CreateKeepsInv(s, a);
    case Rename(_) => RenameKeepsInv(s, a);
    case Settle(_) => SettleKeepsInv(s, a);
    case Check(_, _) => CheckKeepsInv(s, a);
    case Win(_) => WinKeepsInv(s, a);
    case RenewCheck(_) => RenewCheckKeepsInv(s, a);
    case RenewRename(_) => RenewRenameKeepsInv(s, a);
    case Release(_) => ReleaseKeepsInv(s, a);
    case ReleaseInspect(_) => ReleaseKeepsInv(s, a);
    case Unlink(_) => ReleaseKeepsInv(s, a);
    case Clear(_) => ReleaseKeepsInv(s, a);
    case Die(_) => DieKeepsInv(s, a);
    case _ => EntryKeepsInv(s, a);
  }

  lemma {:induction false} RunKeepsInv(s: State, acts: seq<Action>)
    requires Init(s) && Orderly(s, acts)
    ensures Inv(Run(s, acts))
  {
    if acts != [] {
      RunKeepsInv(s, acts[..|acts| - 1]);
      StepKeepsInv(Run(s, acts[..|acts| - 1]), acts[|acts| - 1]);
    }
  }

  /** Only a late renewal puts a name into the file that does not belong there, and it does so at once. */
  lemma NamedExact(s: State, a: Action)
    requires Inv(s) && Named(s) && !Bad(s, a)
    ensures Named(Step(s, a)) <==> !Late(s, a)
  {
    if a.RenewRename? {
      NamedRenewal(s, a);
    } else if a.Die? {
      NamedDeath(s, a);
    } else {
      NamedOther(s, a);
    }
  }

  lemma NamedRenewal(s: State, a: Action)
    requires Named(s) && a.RenewRename?
    ensures Named(Step(s, a)) <==> !Late(s, a)
  {
    assert Step(s, a) != s ==> (Holds(Step(s, a), a.p) <==> Holds(s, a.p));
  }

  lemma NamedDeath(s: State, a: Action)
    requires Named(s) && a.Die?
    ensures Named(Step(s, a))
  {
    var t := Step(s, a);
    assert t.lock == s.lock && (t.lock.Some? && t.lock.value in t.alive ==> (Holds(t, t.lock.value) <==> Holds(s, t.lock.value)));
  }

  /** The step of one process changes only the process itself. */
  lemma OthersStay(s: State, a: Action)
    requires !a.Die?
    ensures var t := Step(s, a);
      && t.alive == s.alive && t.pc.Keys == s.pc.Keys && (t.lock == s.lock || t.lock == None || t.lock == Some(a.p))
      && forall q :: q in s.pc && q != a.p ==> t.pc[q] == s.pc[q] && (q in t.held <==> q in s.held)
  {
  }

  lemma NamedOther(s: State, a: Action)
    requires Inv(s) && Named(s) && !a.Die? && !a.RenewRename?
    ensures Named(Step(s, a))
  {
    hide Step, Inv;
    InvParts(s);
    OthersStay(s, a);
    if a.p in s.alive {
      OwnStep(s, a);
    } else {
      assert Step(s, a) == s by { DeadStay(s, a); }
    }
    var t := Step(s, a);
    assert forall q :: q in s.pc && q != a.p ==> (Holds(t, q) <==> Holds(s, q));
  }

  lemma InvParts(s: State)
    requires Inv(s)
    ensures s.pc.Keys == s.procs && s.alive <= s.procs
  {
  }

  lemma DeadStay(s: State, a: Action)
    requires a.p !in s.alive
    ensures Step(s, a) == s
  {
  }

  /** A process named by the file stays so only as its holder or in settling it. */
  lemma OwnStep(s: State, a: Action)
    requires Inv(s) && a.p in s.alive && !a.Die? && !a.RenewRename?
    requires s.lock == Some(a.p) ==> Holds(s, a.p) || Replaced(s.pc[a.p])
    ensures Step(s, a).lock == Some(a.p) ==> Holds(Step(s, a), a.p) || Replaced(Step(s, a).pc[a.p])
  {
    hide BadDeath, BadRenewal;
  }

  lemma {:induction false} TimelyNames(s: State, acts: seq<Action>)
    requires Init(s) && Orderly(s, acts) && Timely(s, acts)
    ensures Named(Run(s, acts))
  {
    if acts != [] {
      var before := acts[..|acts| - 1];
      TimelyNames(s, before);
      RunKeepsInv(s, before);
      NamedExact(Run(s, before), acts[|acts| - 1]);
    }
  }

  /**
    In every orderly run at most one live process holds the lock, the lock file names it,
    a process about to unlink the file removes its own record only, and, unless a renewal was
    late, a live process is named by the file only while it holds the lock or is settling a
    takeover.
   */
  lemma MutualExclusion(s: State, acts: seq<Action>)
    requires Init(s) && Orderly(s, acts)
    ensures var t := Run(s, acts);
      && (forall p, q :: Holds(t, p) && Holds(t, q) ==> p == q)
      && (forall p: Pid :: Holds(t, p) ==> t.lock == Some(p))
      && (forall p :: p in t.alive && p in t.pc && t.pc[p] == Unlinking ==> t.lock == Some(p))
      && (Timely(s, acts) ==> Named(t))
  {
    RunKeepsInv(s, acts);
    if Timely(s, acts) {
      TimelyNames(s, acts);
    }
    var t := Run(s, acts);
    forall p | p in t.alive && p in t.pc && t.pc[p] == Unlinking
      ensures t.lock == Some(p)
    {
      assert Holds(t, p);
    }
  }

  // --- What a late renewal leaves -----------------------------------------------------

  /** The file names a live process, though nobody holds the lock or races for it. */
  predicate Stuck(s: State) {
    && s.lock.Some? && s.lock.value in s.alive && s.alive <= s.pc.Keys
    && forall q :: q in s.alive ==> !Holds(s, q) && !Racing(s.pc[q]) && !s.pc[q].Releasing? && !s.pc[q].Unlinking?
  }

  /** A late renewal while nobody holds the lock or races for it. */
  lemma LateSticks(s: State, a: Action)
    requires Inv(s) && Late(s, a) && forall q :: q in s.alive ==> !Holds(s, q) && !Racing(s.pc[q])
    ensures Stuck(Step(s, a))
  {
    assert forall q :: Holds(Step(s, a), q) <==> Holds(s, q);
  }

  lemma StuckStep(s: State, a: Action)
    requires Stuck(s) && !a.Die?
    ensures Stuck(Step(s, a))
  {
    hide Step;
    if a.p in s.alive {
      StuckOwn(s, a);
      OthersStay(s, a);
      var t := Step(s, a);
      assert forall q :: q in s.alive && q != a.p ==> t.pc[q] == s.pc[q] && (Holds(t, q) <==> Holds(s, q));
    } else {
      DeadStay(s, a);
    }
  }

  lemma StuckOwn(s: State, a: Action)
    requires s.lock.Some? && s.lock.value in s.alive && a.p in s.alive && a.p in s.pc && !a.Die?
    requires !Holds(s, a.p) && !Racing(s.pc[a.p]) && !s.pc[a.p].Releasing? && !s.pc[a.p].Unlinking?
    ensures var t := Step(s, a);
      && t.lock.Some? && a.p in t.pc && !Holds(t, a.p) && !Racing(t.pc[a.p]) && !t.pc[a.p].Releasing? && !t.pc[a.p].Unlinking?
  {
  }

  /** From then on nobody acquires the lock, whatever is tried, as long as no process dies. */
  lemma {:induction false} StuckStays(s: State, acts: seq<Action>)
    requires Stuck(s) && forall a :: a in acts ==> !a.Die?
    ensures Stuck(Run(s, acts))
  {
    hide Stuck, Step;
    if acts != [] {
      StuckStays(s, acts[..|acts| - 1]);
      StuckStep(Run(s, acts[..|acts| - 1]), acts[|acts| - 1]);
    }
  }

  // --- Why runs have to be orderly -------------------------------------------------

  lemma {:induction false} RunConcat(s: State, a: seq<Action>, b: seq<Action>)
    ensures Run(s, a + b) == Run(Run(s, a), b)
    decreases |b|
  {
    if b == [] {
      assert a + b == a;
    } else {
      assert (a + b)[..|a + b| - 1] == a + b[..|b| - 1];
      RunConcat(s, a, b[..|b| - 1]);
    }
  }

  lemma RunThen(s: State, a: seq<Action>, t: State, b: seq<Action>, u: State) returns (acts: seq<Action>)
    requires Run(s, a) == t && Run(t, b) == u
    ensures Run(s, acts) == u
  {
    RunConcat(s, a, b);
    acts := a + b;
  }

  lemma RunOne(s: State, a: Action, t: State) returns (acts: seq<Action>)
    requires Step(s, a) == t
    ensures Run(s, acts) == t
  {
    acts := [a];
    assert acts[..0] == [];
  }

  /** Appends a step that moves p from x to y and changes nothing else. */
  lemma Move(s: State, acts: seq<Action>, w: State, p: Pid, x: Pc, a: Action, y: Pc) returns (more: seq<Action>)
    requires Run(s, acts) == At(w, p, x)
    requires Step(At(w, p, x), a) == At(At(w, p, x), p, y)
    ensures Run(s, more) == At(w, p, y)
  {
    assert w.pc[p := x][p := y] == w.pc[p := y];
    var one := RunOne(At(w, p, x), a, At(w, p, y));
    more := RunThen(s, acts, At(w, p, x), one, At(w, p, y));
  }

  lemma ToInspect(s: State, p: Pid) returns (acts: seq<Action>)
    requires p in s.alive && p in s.pc && s.pc[p] == Idle && OwnerDead(s)
    ensures Run(s, acts) == At(s.(watches := s.watches + {p}), p, Inspecting)
  {
    hide Run;
    acts := ToCreate(s, p);
    acts := Move(s, acts, s.(watches := s.watches + {p}), p, Creating, Create(p), Inspecting);
  }

  /** An idle process that finds a dead owner gets as far as deciding to rename. */
  lemma ToGate(s: State, p: Pid) returns (acts: seq<Action>)
    requires p in s.alive && p in s.pc && s.pc[p] == Idle && OwnerDead(s)
    ensures Run(s, acts) == At(s.(watches := s.watches + {p}), p, Armed)
  {
    hide Run;
    var w := s.(watches := s.watches + {p});
    acts := ToInspect(s, p);
    acts := Move(s, acts, w, p, Inspecting, Inspect(p), Bidding);
    acts := Move(s, acts, w, p, Bidding, Bid(p), Gating);
    acts := Move(s, acts, w, p, Gating, Gate(p), Armed);
  }

  /** The rename and the inspection that follows it. */
  lemma ToScan(s: State, p: Pid) returns (acts: seq<Action>)
    requires p in s.alive && p in s.pc && s.pc[p] == Armed
    ensures Run(s, acts) == At(s.(lock := Some(p)), p, Scanning({}))
  {
    hide Run;
    var w := s.(lock := Some(p));
    acts := RunOne(s, Rename(p), At(w, p, Settling));
    acts := Move(s, acts, w, p, Settling, Settle(p), Scanning({}));
  }

  lemma CheckOne(s: State, p: Pid, q: Pid) returns (acts: seq<Action>)
    requires p in s.alive && p in s.pc && s.pc[p].Scanning? && q != p && q in s.procs
    requires q !in s.watches || q !in s.alive
    ensures Run(s, acts) == At(s.(watches := s.watches - {q}), p, Scanning(s.pc[p].checked + {q}))
  {
    acts := RunOne(s, Check(p, q), At(s.(watches := s.watches - {q}), p, Scanning(s.pc[p].checked + {q})));
  }

  function Trio(alive: set<Pid>, lock: Pid, watches: set<Pid>, pc1: Pc, pc2: Pc, pc3: Pc, held: set<Pid>): State {
    State({1, 2, 3}, alive, Some(lock), watches, map[1 := pc1, 2 := pc2, 3 := pc3], held, multiset{})
  }

  lemma Overtake() returns (acts: seq<Action>)
    ensures Run(Trio({1, 2, 3}, 0, {1, 2}, Armed, Armed, Idle, {}), acts)
         == Trio({1, 2, 3}, 2, {1, 2}, Scanning({}), Settling, Idle, {})
  {
    var s0 := Trio({1, 2, 3}, 0, {1, 2}, Armed, Armed, Idle, {});
    var s2 := Trio({1, 2, 3}, 1, {1, 2}, Scanning({}), Armed, Idle, {});
    var s3 := Trio({1, 2, 3}, 2, {1, 2}, Scanning({}), Settling, Idle, {});
    acts := ToScan(s0, 1);
    assert s0.pc[1 := Scanning({})] == s2.pc;
    assert s2.pc[2 := Settling] == s3.pc;
    var two := RunOne(s2, Rename(2), s3);
    acts := RunThen(s0, acts, s2, two, s3);
  }

  lemma ScanPastTheDead() returns (acts: seq<Action>)
    ensures Run(Trio({1, 2, 3}, 2, {1, 2}, Scanning({}), Settling, Idle, {}), acts)
         == Trio({1, 3}, 2, {1}, Scanning({2, 3}), Settling, Idle, {})
  {
    hide *;
    var s0 := Trio({1, 2, 3}, 2, {1, 2}, Scanning({}), Settling, Idle, {});
    var s1 := Trio({1, 3}, 2, {1, 2}, Scanning({}), Settling, Idle, {});
    var s2 := Trio({1, 3}, 2, {1}, Scanning({2}), Settling, Idle, {});
    var s3 := Trio({1, 3}, 2, {1}, Scanning({2, 3}), Settling, Idle, {});
    var die := TwoDies();
    var two := PassTwo();
    var three := PassThree();
    acts := RunThen(s0, die, s1, two, s2);
    acts := RunThen(s0, acts, s2, three, s3);
  }

  lemma TwoDies() returns (acts: seq<Action>)
    ensures Run(Trio({1, 2, 3}, 2, {1, 2}, Scanning({}), Settling, Idle, {}), acts)
         == Trio({1, 3}, 2, {1, 2}, Scanning({}), Settling, Idle, {})
  {
    assert {1, 2, 3} - {2} == {1, 3};
    acts := RunOne(Trio({1, 2, 3}, 2, {1, 2}, Scanning({}), Settling, Idle, {}), Die(2),
                   Trio({1, 3}, 2, {1, 2}, Scanning({}), Settling, Idle, {}));
  }

  lemma PassTwo() returns (acts: seq<Action>)
    ensures Run(Trio({1, 3}, 2, {1, 2}, Scanning({}), Settling, Idle, {}), acts)
         == Trio({1, 3}, 2, {1}, Scanning({2}), Settling, Idle, {})
  {
    var s, t := Trio({1, 3}, 2, {1, 2}, Scanning({}), Settling, Idle, {}), Trio({1, 3}, 2, {1}, Scanning({2}), Settling, Idle, {});
    assert {1, 2} - {2} == {1} && {} + {2} == {2};
    acts := CheckOne(s, 1, 2);
    assert s.pc[1 := Scanning({2})] == t.pc;
  }

  lemma PassThree() returns (acts: seq<Action>)
    ensures Run(Trio({1, 3}, 2, {1}, Scanning({2}), Settling, Idle, {}), acts)
         == Trio({1, 3}, 2, {1}, Scanning({2, 3}), Settling, Idle, {})
  {
    var s, t := Trio({1, 3}, 2, {1}, Scanning({2}), Settling, Idle, {}), Trio({1, 3}, 2, {1}, Scanning({2, 3}), Settling, Idle, {});
    assert {1} - {3} == {1} && {2} + {3} == {2, 3};
    acts := CheckOne(s, 1, 3);
    assert s.pc[1 := Scanning({2, 3})] == t.pc;
  }

  lemma WinAndUnwatch(s: State, p: Pid) returns (acts: seq<Action>)
    requires p in s.alive && p in s.pc && s.pc[p].Scanning? && s.procs - {p} <= s.pc[p].checked
    ensures Run(s, acts) == s.(pc := s.pc[p := Idle], watches := s.watches - {p}, held := s.held + {p})
  {
    assert [Win(p), Unwatch(p)][..1] == [Win(p)] && [Win(p)][..0] == [];
    assert Run(s, [Win(p)]) == Step(s, Win(p));
    assert s.pc[p := Unwatching][p := Idle] == s.pc[p := Idle];
    acts := [Win(p), Unwatch(p)];
  }

  /** Process 2 renames over process 1 once 1 has inspected the file, and dies; 1 scans past it and wins. */
  lemma FirstWinner() returns (acts: seq<Action>)
    ensures Run(Trio({1, 2, 3}, 0, {1, 2}, Armed, Armed, Idle, {}), acts)
         == Trio({1, 3}, 2, {}, Idle, Settling, Idle, {1})
  {
    var s0 := Trio({1, 2, 3}, 0, {1, 2}, Armed, Armed, Idle, {});
    var s1 := Trio({1, 2, 3}, 2, {1, 2}, Scanning({}), Settling, Idle, {});
    var s2 := Trio({1, 3}, 2, {1}, Scanning({2, 3}), Settling, Idle, {});
    var s3 := Trio({1, 3}, 2, {}, Idle, Settling, Idle, {1});
    var race := Overtake();
    var leave := ScanPastTheDead();
    var win := WinAndUnwatch(s2, 1);
    assert s2.pc[1 := Idle] == s3.pc && {1} - {1} == {} && {} + {1} == {1};
    acts := RunThen(s0, race, s1, leave, s2);
    acts := RunThen(s0, acts, s2, win, s3);
  }

  /** With nobody else watching, an idle process takes over from a dead owner. */
  lemma TakeOver(s: State, p: Pid) returns (acts: seq<Action>)
    requires p in s.alive && p in s.procs && s.pc.Keys == s.procs && s.pc[p] == Idle && OwnerDead(s) && s.watches !! s.alive
    ensures Run(s, acts) == s.(lock := Some(p), watches := s.watches - s.procs, held := s.held + {p})
  {
    hide Run, Step, Orderly;
    var others := s.procs - {p};
    var armed := At(s.(watches := s.watches + {p}), p, Armed);
    var settled := At(armed.(lock := Some(p)), p, Scanning({}));
    var scanned := settled.(watches := settled.watches - others, pc := settled.pc[p := Scanning({} + others)]);
    var end := scanned.(pc := scanned.pc[p := Idle], watches := scanned.watches - {p}, held := s.held + {p});
    acts := ToGate(s, p);
    var take := ToScan(armed, p);
    var scan := ScanAll(settled, p, others);
    var win := WinAndUnwatch(scanned, p);
    acts := RunThen(s, acts, armed, take, settled);
    acts := RunThen(s, acts, settled, scan, scanned);
    acts := RunThen(s, acts, scanned, win, end);
    assert end.pc == s.pc && end.watches == s.watches - s.procs;
  }

  lemma SecondWinner() returns (acts: seq<Action>)
    ensures Run(Trio({1, 3}, 2, {}, Idle, Settling, Idle, {1}), acts)
         == Trio({1, 3}, 3, {}, Idle, Settling, Idle, {1, 3})
  {
    hide Run;
    assert {} - {1, 2, 3} == {} && {1} + {3} == {1, 3};
    acts := TakeOver(Trio({1, 3}, 2, {}, Idle, Settling, Idle, {1}), 3);
  }

  lemma TwoArmed() returns (acts: seq<Action>)
    ensures Run(Trio({1, 2, 3}, 0, {}, Idle, Idle, Idle, {}), acts)
         == Trio({1, 2, 3}, 0, {1, 2}, Armed, Armed, Idle, {})
  {
    var s := Trio({1, 2, 3}, 0, {}, Idle, Idle, Idle, {});
    var s1 := Trio({1, 2, 3}, 0, {1}, Armed, Idle, Idle, {});
    var s2 := Trio({1, 2, 3}, 0, {1, 2}, Armed, Armed, Idle, {});
    assert {} + {1} == {1} && {1} + {2} == {1, 2};
    var one := ToGate(s, 1);
    assert s.pc[1 := Armed] == s1.pc;
    var two := ToGate(s1, 2);
    assert s1.pc[2 := Armed] == s2.pc;
    acts := RunThen(s, one, s1, two, s2);
  }

  /** Without orderliness exclusion fails: two live processes end up holding the lock. */
  lemma DyingWatcherBreaksExclusion() returns (s: State, acts: seq<Action>)
    ensures Init(s) && !Orderly(s, acts)
    ensures Holds(Run(s, acts), 1) && Holds(Run(s, acts), 3)
  {
    s := Trio({1, 2, 3}, 0, {}, Idle, Idle, Idle, {});
    var arm := TwoArmed();
    var first := FirstWinner();
    var second := SecondWinner();
    RunConcat(s, arm, first);
    RunConcat(s, arm + first, second);
    acts := arm + first + second;
    assert Holds(Run(s, acts), 1) && Holds(Run(s, acts), 3);
    if Orderly(s, acts) {
      MutualExclusion(s, acts);
      assert false;
    }
  }

  // --- a renewal beside a release -------------------------------------------------------------

  lemma CreateIt(s: State, p: Pid) returns (acts: seq<Action>)
    requires p in s.alive && p in s.pc && s.pc[p] == Idle && s.lock == None && p !in s.watches
    ensures Run(s, acts) == s.(lock := Some(p), held := s.held + {p})
  {
    hide Run, Step;
    var w := s.(watches := s.watches + {p});
    acts := ToCreate(s, p);
    var more := CreateAndUnwatch(At(w, p, Creating), p);
    acts := RunThen(s, acts, At(w, p, Creating), more, Run(At(w, p, Creating), more));
    assert s.watches + {p} - {p} == s.watches && s.pc[p := Creating][p := Idle] == s.pc;
  }

  lemma ToCreate(s: State, p: Pid) returns (acts: seq<Action>)
    requires p in s.alive && p in s.pc && s.pc[p] == Idle
    ensures Run(s, acts) == At(s.(watches := s.watches + {p}), p, Creating)
  {
    hide Run;
    var w := s.(watches := s.watches + {p});
    acts := RunOne(s, Acquire(p), At(w, p, Reaping));
    acts := Move(s, acts, w, p, Reaping, EndReap(p), Creating);
  }

  lemma CreateAndUnwatch(s: State, p: Pid) returns (acts: seq<Action>)
    requires p in s.alive && p in s.pc && s.pc[p] == Creating && s.lock == None
    ensures Run(s, acts) == s.(lock := Some(p), held := s.held + {p}, watches := s.watches - {p}, pc := s.pc[p := Idle])
  {
    assert [Create(p), Unwatch(p)][..1] == [Create(p)] && [Create(p)][..0] == [];
    assert Run(s, [Create(p)]) == Step(s, Create(p));
    assert s.pc[p := Unwatching][p := Idle] == s.pc[p := Idle];
    acts := [Create(p), Unwatch(p)];
  }

  lemma ReleaseIt(s: State, p: Pid) returns (acts: seq<Action>)
    requires p in s.alive && p in s.pc && s.pc[p] == Idle && p in s.held && s.lock == Some(p)
    ensures Run(s, acts) == s.(lock := None, held := s.held - {p})
  {
    hide Run, Step;
    acts := ToUnlink(s, p);
    var more := UnlinkAndClear(At(s, p, Unlinking), p);
    acts := RunThen(s, acts, At(s, p, Unlinking), more, Run(At(s, p, Unlinking), more));
    assert s.pc[p := Unlinking][p := Idle] == s.pc;
  }

  lemma ToUnlink(s: State, p: Pid) returns (acts: seq<Action>)
    requires p in s.alive && p in s.pc && s.pc[p] == Idle && p in s.held && s.lock == Some(p)
    ensures Run(s, acts) == At(s, p, Unlinking)
  {
    hide Run;
    acts := RunOne(s, Release(p), At(s, p, Releasing));
    acts := Move(s, acts, s, p, Releasing, ReleaseInspect(p), Unlinking);
  }

  lemma UnlinkAndClear(s: State, p: Pid) returns (acts: seq<Action>)
    requires p in s.alive && p in s.pc && s.pc[p] == Unlinking
    ensures Run(s, acts) == s.(lock := None, held := s.held - {p}, pc := s.pc[p := Idle])
  {
    hide Run;
    var t := At(s.(lock := None), p, Clearing);
    var end := s.(lock := None, held := s.held - {p}, pc := s.pc[p := Idle]);
    assert s.pc[p := Clearing][p := Idle] == s.pc[p := Idle];
    acts := RunOne(s, Unlink(p), t);
    var clear := RunOne(t, Clear(p), end);
    acts := RunThen(s, acts, t, clear, end);
  }

  function AllIdle(alive: set<Pid>, lock: Option<Pid>, held: set<Pid>, renewing: multiset<Pid>): State {
    State({1, 2, 3}, alive, lock, {}, map[1 := Idle, 2 := Idle, 3 := Idle], held, renewing)
  }

  /**
    Nobody dies with its watch file, but process 1 renews beside its own release: the rename
    comes when 2 has acquired the lock.  Once 1 has died, 3 takes the lock over from it.
   */
  lemma LateRenewalBreaksExclusion() returns (s: State, acts: seq<Action>)
    ensures Init(s) && !Orderly(s, acts)
    ensures Holds(Run(s, acts), 2) && Holds(Run(s, acts), 3)
  {
    s := AllIdle({1, 2, 3}, None, {}, multiset{});
    acts := RenewsLate();
    assert Holds(Run(s, acts), 2) && Holds(Run(s, acts), 3);
    if Orderly(s, acts) {
      MutualExclusion(s, acts);
      assert false;
    }
  }

  lemma RenewsLate() returns (acts: seq<Action>)
    ensures Run(AllIdle({1, 2, 3}, None, {}, multiset{}), acts) == AllIdle({2, 3}, Some(3), {2, 3}, multiset{})
  {
    hide Run, Step, Orderly;
    var s0, s1 := AllIdle({1, 2, 3}, None, {}, multiset{}), AllIdle({1, 2, 3}, Some(1), {1}, multiset{});
    var s2, s3 := AllIdle({1, 2, 3}, Some(1), {1}, multiset{1}), AllIdle({1, 2, 3}, None, {}, multiset{1});
    var s4, s5 := AllIdle({1, 2, 3}, Some(2), {2}, multiset{1}), AllIdle({1, 2, 3}, Some(1), {2}, multiset{});
    var s6, s7 := AllIdle({2, 3}, Some(1), {2}, multiset{}), AllIdle({2, 3}, Some(3), {2, 3}, multiset{});
    Sets();
    CheckStep(s1, 1);
    RenameStep(s4, 1);
    DieStep(s5, 1);
    acts := CreateIt(s0, 1);
    var check := RunOne(s1, RenewCheck(1), s2);
    var release := ReleaseIt(s2, 1);
    var second := CreateIt(s3, 2);
    var rename := RunOne(s4, RenewRename(1), s5);
    var die := RunOne(s5, Die(1), s6);
    var third := TakeOver(s6, 3);
    acts := RunThen(s0, acts, s1, check, s2);
    acts := RunThen(s0, acts, s2, release, s3);
    acts := RunThen(s0, acts, s3, second, s4);
    acts := RunThen(s0, acts, s4, rename, s5);
    acts := RunThen(s0, acts, s5, die, s6);
    acts := RunThen(s0, acts, s6, third, s7);
  }

  lemma Sets()
    ensures var none: set<Pid> := {}; none + {1} == {1} && {1} - {1} == none && none + {2} == {2} && none - {1, 2, 3} == none
    ensures {2} + {3} == {2, 3} && {1, 2, 3} - {1} == {2, 3}
    ensures var none: multiset<Pid> := multiset{}; none + multiset{1} == multiset{1} && multiset{1} - multiset{1} == none
  {
  }

  lemma CheckStep(s: State, p: Pid)
    requires p in s.alive && p in s.pc && p in s.held
    ensures Step(s, RenewCheck(p)) == s.(renewing := s.renewing + multiset{p})
  {
  }

  lemma RenameStep(s: State, p: Pid)
    requires p in s.alive && p in s.pc && p in s.renewing
    ensures Step(s, RenewRename(p)) == s.(lock := Some(p), renewing := s.renewing - multiset{p})
  {
  }

  lemma DieStep(s: State, p: Pid)
    requires p in s.alive && p in s.pc
    ensures Step(s, Die(p)) == s.(alive := s.alive - {p})
  {
  }

  // --- Which steps break exclusion ------------------------------------------------------

  /** Whoever dies badly has its watch file still there. */
  lemma BadDeathHasWatch(s: State, p: Pid)
    requires Inv(s) && BadDeath(s, p)
    ensures p in s.watches
  {
  }

  /** While a renewal of a process is under way the process does nothing else, and it begins one only between its other operations. */
  predicate OneAtATime(s: State, acts: seq<Action>) {
    acts == [] ||
    (var before := acts[..|acts| - 1];
     var last := acts[|acts| - 1];
     var t := Run(s, before);
     && OneAtATime(s, before)
     && (last.p in t.renewing ==> last.RenewRename? || last.Die?)
     && (last.RenewCheck? && last.p in t.pc ==> t.pc[last.p] == Idle))
  }

  /** Whoever is renewing holds the lock and does nothing else. */
  predicate RenewersHold(s: State) {
    && s.pc.Keys == s.procs && s.alive <= s.procs
    && forall p :: p in s.renewing && p in s.alive ==> s.renewing[p] == 1 && p in s.held && s.pc[p] == Idle
  }

  lemma RenewersKeep(s: State, a: Action)
    requires RenewersHold(s) && (a.p in s.renewing ==> a.RenewRename? || a.Die?) && (a.RenewCheck? && a.p in s.pc ==> s.pc[a.p] == Idle)
    ensures RenewersHold(Step(s, a))
  {
    hide Step;
    if a.Die? {
      assert Step(s, a) == if a.p in s.alive && a.p in s.pc then s.(alive := s.alive - {a.p}) else s by { DieEffect(s, a); }
    } else if a.p !in s.alive {
      DeadStay(s, a);
    } else {
      OthersStay(s, a);
      RenewingAfter(s, a);
    }
  }

  lemma DieEffect(s: State, a: Action)
    requires a.Die?
    ensures Step(s, a) == if a.p in s.alive && a.p in s.pc then s.(alive := s.alive - {a.p}) else s
  {
  }

  lemma RenewingAfter(s: State, a: Action)
    requires a.p in s.alive && a.p in s.pc && !a.Die?
    ensures var t := Step(s, a);
      && t.procs == s.procs
      && (a.RenewCheck? ==> t == if a.p in s.held then s.(renewing := s.renewing + multiset{a.p}) else s)
      && (a.RenewRename? ==> t.renewing == s.renewing - multiset{a.p} && t.held == s.held && t.pc == s.pc)
      && (!a.RenewCheck? && !a.RenewRename? ==> t.renewing == s.renewing)
  {
  }

  lemma {:induction false} RunKeepsRenewers(s: State, acts: seq<Action>)
    requires Init(s) && OneAtATime(s, acts)
    ensures RenewersHold(Run(s, acts))
  {
    hide Step, RenewersHold;
    if acts == [] {
      NobodyRenews(s);
    } else {
      RunKeepsRenewers(s, acts[..|acts| - 1]);
      RenewersKeep(Run(s, acts[..|acts| - 1]), acts[|acts| - 1]);
    }
  }

  lemma NobodyRenews(s: State)
    requires Init(s)
    ensures RenewersHold(s)
  {
  }

  /** If no process renews beside another operation of its own, no renewal is late. */
  lemma {:induction false} OneAtATimeIsTimely(s: State, acts: seq<Action>)
    requires Init(s) && OneAtATime(s, acts)
    ensures Timely(s, acts)
  {
    hide Run;
    if acts != [] {
      OneAtATimeIsTimely(s, acts[..|acts| - 1]);
      RunKeepsRenewers(s, acts[..|acts| - 1]);
    }
  }

  /** A bad renewal is late. */
  lemma BadRenewalIsLate(s: State, p: Pid)
    requires Inv(s) && BadRenewal(s, p)
    ensures Late(s, RenewRename(p))
  {
  }

  /** If nobody dies while its own watch file exists and no renewal is late, the run is orderly. */
  lemma {:induction false} UnwatchedIsOrderly(s: State, acts: seq<Action>)
    requires Init(s) && Unwatched(s, acts) && Timely(s, acts)
    ensures Orderly(s, acts)
  {
    if acts != [] {
      var before, last := acts[..|acts| - 1], acts[|acts| - 1];
      UnwatchedIsOrderly(s, before);
      RunKeepsInv(s, before);
      var t := Run(s, before);
      if Bad(t, last) {
        if last.Die? {
          BadDeathHasWatch(t, last.p);
        } else {
          BadRenewalIsLate(t, last.p);
        }
        assert false;
      }
    }
  }

  lemma {:induction false} OrderlyThen(s: State, a: seq<Action>, b: seq<Action>)
    ensures Orderly(s, a + b) <==> Orderly(s, a) && Orderly(Run(s, a), b)
  {
    if b == [] {
      assert a + b == a;
    } else {
      var n := |b| - 1;
      assert (a + b)[..|a + b| - 1] == a + b[..n];
      OrderlyThen(s, a, b[..n]);
      RunConcat(s, a, b[..n]);
    }
  }

  lemma OrderlyOne(s: State, a: Action)
    requires !Bad(s, a)
    ensures Orderly(s, [a]) && Run(s, [a]) == Step(s, a)
  {
    var one := [a];
    assert one[..|one| - 1] == [];
    assert Run(s, one[..|one| - 1]) == s && Orderly(s, one[..|one| - 1]);
  }

  lemma Pick(ps: set<Pid>) returns (p: Pid)
    requires ps != {}
    ensures p in ps
  {
    p :| p in ps;
  }

  /** While the file names a dead process, any death is harmless in itself. */
  lemma {:induction false} AllDie(s: State, dead: set<Pid>) returns (acts: seq<Action>)
    requires s.lock.Some? && s.lock.value !in s.alive && dead <= s.alive && s.alive <= s.pc.Keys
    ensures Orderly(s, acts) && Run(s, acts) == s.(alive := s.alive - dead)
    decreases |dead|
  {
    hide Run, Orderly, Step;
    NoSteps(s);
    if dead != {} {
      var r := Pick(dead);
      var t := Step(s, Die(r));
      DieStep(s, r);
      OrderlyOne(s, Die(r));
      var more := AllDie(t, dead - {r});
      OrderlyThen(s, [Die(r)], more);
      RunConcat(s, [Die(r)], more);
      assert s.alive - {r} - (dead - {r}) == s.alive - dead;
      acts := [Die(r)] + more;
    } else {
      acts := [];
      assert s.alive - dead == s.alive;
    }
  }

  /** A scan past processes that are dead or have no watch file. */
  lemma {:induction false} ScanAll(s: State, q: Pid, rest: set<Pid>) returns (acts: seq<Action>)
    requires q in s.alive && q in s.pc && s.pc[q].Scanning? && rest <= s.procs - {q} && rest * s.watches !! s.alive
    ensures Orderly(s, acts)
    ensures Run(s, acts) == s.(watches := s.watches - rest, pc := s.pc[q := Scanning(s.pc[q].checked + rest)])
    decreases |rest|
  {
    hide Run, Orderly;
    NoSteps(s);
    if rest != {} {
      var r := Pick(rest);
      var t := Step(s, Check(q, r));
      OrderlyOne(s, Check(q, r));
      var more := ScanAll(t, q, rest - {r});
      OrderlyThen(s, [Check(q, r)], more);
      RunConcat(s, [Check(q, r)], more);
      assert s.watches - {r} - (rest - {r}) == s.watches - rest;
      assert s.pc[q].checked + {r} + (rest - {r}) == s.pc[q].checked + rest;
      assert t.pc[q := Scanning(s.pc[q].checked + rest)] == s.pc[q := Scanning(s.pc[q].checked + rest)];
      acts := [Check(q, r)] + more;
    } else {
      acts := [];
      assert s.watches - rest == s.watches && s.pc[q].checked + rest == s.pc[q].checked;
      assert s.pc[q := s.pc[q]] == s.pc;
    }
  }

  /** A live process holds the lock and the file does not name it, or two hold it. */
  predicate Broken(s: State) {
    exists p :: p in s.alive && Holds(s, p) && (s.lock != Some(p) || exists q :: q in s.alive && q != p && Holds(s, q))
  }

  /** Once the file names a dead process, the rest may die and a scanner wins. */
  lemma ScannerWins(t: State, q: Pid) returns (acts: seq<Action>)
    requires t.lock.Some? && t.lock.value !in t.alive && t.pc.Keys == t.procs && t.alive <= t.procs
    requires q in t.alive && q in t.pc && t.pc[q].Scanning?
    ensures Orderly(t, acts) && Broken(Run(t, acts))
  {
    hide Run, Orderly, Broken, Step;
    var die := AllDie(t, t.alive - {q});
    var alone := Run(t, die);
    assert alone.alive == {q};
    var win := ScanAndWin(alone, q);
    RunConcat(t, die, win);
    OrderlyThen(t, die, win);
    acts := die + win;
  }

  /** After a bad death the scanner may go on, win, and hold a lock whose file names the dead process. */
  lemma BadDeathBreaks(s: State, p: Pid) returns (acts: seq<Action>)
    requires Inv(s) && BadDeath(s, p)
    ensures var t := Step(s, Die(p)); Orderly(t, acts) && Broken(Run(t, acts))
  {
    hide Run, Orderly, Inv, Broken, Step;
    BadDeathFacts(s, p);
    DieStep(s, p);
    var q :| q in s.alive && q in s.pc && q != p && s.pc[q].Scanning?;
    acts := ScannerWins(Step(s, Die(p)), q);
  }

  lemma BadDeathFacts(s: State, p: Pid)
    requires Inv(s)
    ensures s.pc.Keys == s.procs && s.alive <= s.procs
  {
  }

  /** A scanner that is the last one alive wins, whatever the file says. */
  lemma ScanAndWin(s: State, q: Pid) returns (acts: seq<Action>)
    requires s.alive == {q} && s.pc.Keys == s.procs && q in s.procs && s.pc[q].Scanning? && s.lock != Some(q)
    ensures Orderly(s, acts) && Broken(Run(s, acts))
  {
    hide Run, Orderly;
    var rest := s.procs - {q} - s.pc[q].checked;
    var scan := ScanAll(s, q, rest);
    var done := Run(s, scan);
    assert s.procs - {q} <= s.pc[q].checked + rest;
    OrderlyOne(done, Win(q));
    RunConcat(s, scan, [Win(q)]);
    OrderlyThen(s, scan, [Win(q)]);
    acts := scan + [Win(q)];
    assert Holds(Run(s, acts), q);
  }

  /** After a bad renewal the file names a process that does not hold it, while another one holds it or may come to. */
  lemma BadRenewalBreaks(s: State, p: Pid) returns (acts: seq<Action>)
    requires Inv(s) && BadRenewal(s, p)
    ensures var t := Step(s, RenewRename(p)); Orderly(t, acts) && Broken(Run(t, acts))
  {
    hide Run, Orderly, Inv, Step, Broken;
    var t := Step(s, RenewRename(p));
    BadDeathFacts(s, p);
    RenameStep(s, p);
    var q :| q in s.alive && q in s.pc && q != p && (Holds(s, q) || s.pc[q].Scanning?);
    if Holds(s, q) {
      acts := [];
      NoSteps(t);
      HeldByOther(t, p, q);
    } else {
      DieStep(t, p);
      OrderlyOne(t, Die(p));
      var win := ScannerWins(Step(t, Die(p)), q);
      RunConcat(t, [Die(p)], win);
      OrderlyThen(t, [Die(p)], win);
      acts := [Die(p)] + win;
    }
  }

  lemma HeldByOther(t: State, p: Pid, q: Pid)
    requires q != p && t.lock == Some(p) && Holds(t, q)
    ensures Broken(t)
  {
  }

  lemma NoSteps(s: State)
    ensures Run(s, []) == s && Orderly(s, [])
  {
  }

  /**
    Orderliness is exact.  After an orderly run any step is taken; exclusion can be broken by
    some orderly continuation if and only if the step was a bad death or a bad renewal.
   */
  lemma OrderlyExact(s: State, acts: seq<Action>, a: Action)
    requires Init(s) && Orderly(s, acts)
    ensures Bad(Run(s, acts), a)
       <==> exists more :: Orderly(Run(s, acts + [a]), more) && Broken(Run(s, acts + [a] + more))
  {
    hide Inv, Broken, Bad;
    var t, u := Run(s, acts), Run(s, acts + [a]);
    assert (acts + [a])[..|acts|] == acts;
    RunKeepsInv(s, acts);
    if Bad(t, a) {
      var more := BadBreaks(t, a);
      RunConcat(s, acts + [a], more);
      assert Orderly(u, more) && Broken(Run(s, acts + [a] + more));
    } else {
      forall more | Orderly(u, more)
        ensures !Broken(Run(s, acts + [a] + more))
      {
        OrderlyThen(s, acts + [a], more);
        NotBroken(s, acts + [a] + more);
      }
    }
  }

  lemma BadBreaks(s: State, a: Action) returns (acts: seq<Action>)
    requires Inv(s) && Bad(s, a)
    ensures Orderly(Step(s, a), acts) && Broken(Run(Step(s, a), acts))
  {
    hide Inv, Run, Orderly, Broken, BadDeath, BadRenewal, Step;
    if a.Die? {
      acts := BadDeathBreaks(s, a.p);
    } else {
      acts := BadRenewalBreaks(s, a.p);
    }
  }

  lemma NotBroken(s: State, acts: seq<Action>)
    requires Init(s) && Orderly(s, acts)
    ensures !Broken(Run(s, acts))
  {
    hide Init, Orderly, Run;
    MutualExclusion(s, acts);
  }
}

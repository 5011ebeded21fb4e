/** The two-level lock between driver and firmware: the SWSM semaphore guards SW_FW_SYNC, whose
    low half names the resources software owns and whose high half those firmware owns.

    Each step is one register access. The hardware refuses SWESMBI while firmware holds its own
    side of the semaphore, and firmware takes its side only while SWESMBI is clear and changes
    SW_FW_SYNC only while it has it. */
module PhySync {
  /** A register word, as the set of its one bits. */
  type Word = set<nat>

  /** A 16-bit resource mask. */
  type Mask = m: set<nat> | forall b :: b in m ==> b < 16

  datatype Goal = Claim(mask: Mask) | Release(i: nat)

  /** Where a software agent is: in `Semaphore::new`, in the critical section of `Synced::new` or
      of `Synced`'s drop, or in neither. */
  datatype Pc =
    | Idle
    | SemRead(goal: Goal)
    | SemWrite(goal: Goal)
    | SemCheck(goal: Goal)
    | SyncRead(goal: Goal)
    | SyncWrite(goal: Goal, value: Word)
    | SemDrop

  /** `held` lists, for each agent, the masks of its live `Synced` values. */
  datatype State = State(swesmbi: bool, fwHolds: bool, sync: Word, pcs: seq<Pc>, held: seq<seq<Mask>>)

  datatype Step =
    | Begin(a: nat, goal: Goal)
    | Access(a: nat)
    | FwLock
    | FwUnlock
    | FwClaim(mask: Mask)
    | FwRelease(mask: Mask)

  /** `(mask as u32) << 16` */
  function High(m: Mask): Word {
    set b | b in m :: b + 16
  }

  lemma HighBit(m: Mask, b: nat)
    ensures b + 16 in High(m) <==> b in m
    ensures b < 16 ==> b !in High(m)
  {
  }

  function RemoveAt(s: seq<Mask>, i: nat): seq<Mask>
    requires i < |s|
  {
    s[..i] + s[i + 1..]
  }

  ghost predicate Formed(s: State) {
    |s.pcs| == |s.held|
    && forall a :: 0 <= a < |s.pcs| ==>
         match s.pcs[a]
         case Idle => true
         case SemDrop => true
         case SemRead(g) => GoalOk(g, s.held[a])
         case SemWrite(g) => GoalOk(g, s.held[a])
         case SemCheck(g) => GoalOk(g, s.held[a])
         case SyncRead(g) => GoalOk(g, s.held[a])
         case SyncWrite(g, _) => GoalOk(g, s.held[a])
  }

  /** A drop is of a live value. */
  predicate GoalOk(g: Goal, held: seq<Mask>) {
    g.Release? ==> g.i < |held|
  }

  predicate Enabled(s: State, step: Step)
    requires |s.pcs| == |s.held|
  {
    match step
    case Begin(a, g) => a < |s.pcs| && s.pcs[a].Idle? && GoalOk(g, s.held[a])
    case Access(a) => a < |s.pcs| && !s.pcs[a].Idle?
    case FwLock => !s.swesmbi
    case FwUnlock => s.fwHolds
    case FwClaim(_) => s.fwHolds
    case FwRelease(_) => s.fwHolds
  }

  /** The next register access of agent `a`. */
  function AccessStep(s: State, a: nat): State
    requires Formed(s) && a < |s.pcs| && !s.pcs[a].Idle?
  {
    match s.pcs[a]
    case SemRead(g) => s.(pcs := s.pcs[a := SemWrite(g)])
    case SemWrite(g) => s.(swesmbi := s.swesmbi || !s.fwHolds, pcs := s.pcs[a := SemCheck(g)])
    case SemCheck(g) => s.(pcs := s.pcs[a := if s.swesmbi then SyncRead(g) else SemRead(g)])
    case SyncRead(g) =>
      (match g
       case Claim(m) =>
         if s.sync !! m + High(m) then s.(pcs := s.pcs[a := SyncWrite(g, s.sync + m)]) else s
       case Release(i) => s.(pcs := s.pcs[a := SyncWrite(g, s.sync - s.held[a][i])]))
    case SyncWrite(g, v) =>
      var held' := match g case Claim(m) => s.held[a] + [m] case Release(i) => RemoveAt(s.held[a], i);
      s.(sync := v, held := s.held[a := held'], pcs := s.pcs[a := SemDrop])
    case SemDrop => s.(swesmbi := false, pcs := s.pcs[a := Idle])
  }

  function Next(s: State, step: Step): State
    requires Formed(s) && Enabled(s, step)
  {
    match step
    case Begin(a, g) => s.(pcs := s.pcs[a := SemRead(g)])
    case Access(a) => AccessStep(s, a)
    case FwLock => s.(fwHolds := true)
    case FwUnlock => s.(fwHolds := false)
    case FwClaim(m) => if s.sync !! m + High(m) then s.(sync := s.sync + High(m)) else s
    case FwRelease(m) => s.(sync := s.sync - High(m))
  }

  ghost predicate Run(s: State, steps: seq<Step>, s': State)
    decreases |steps|
  {
    if steps == [] then s' == s
    else Formed(s) && Enabled(s, steps[0]) && Run(Next(s, steps[0]), steps[1..], s')
  }

  function Start(agents: nat): State {
    State(false, false, {}, seq(agents, i => Idle), seq(agents, i => []))
  }

  /** Software values of one agent share no resource. */
  ghost predicate Apart(ms: seq<Mask>) {
    forall i, j :: 0 <= i < j < |ms| ==> ms[i] !! ms[j]
  }

  /** Resource `b` is marked as software's, or as firmware's. */
  predicate SwOwns(sync: Word, b: nat) {
    b < 16 && b in sync
  }

  predicate FwOwns(sync: Word, b: nat) {
    b < 16 && b + 16 in sync
  }

  /** No resource is marked for both sides. */
  ghost predicate Split(sync: Word) {
    forall b: nat :: !(SwOwns(sync, b) && FwOwns(sync, b))
  }

  /** Software and firmware own no resource together, and no two live software values share
      one. */
  ghost predicate Exclusive(s: State) {
    Split(s.sync)
    && (forall a :: 0 <= a < |s.held| ==> Apart(s.held[a]))
    && (forall a, b, i, j | 0 <= a < b < |s.held| && 0 <= i < |s.held[a]| && 0 <= j < |s.held[b]| ::
          s.held[a][i] !! s.held[b][j])
  }

  // ---- one software agent ----

  predicate InCritical(pc: Pc) {
    pc.SyncRead? || pc.SyncWrite? || pc.SemDrop?
  }

  /** The software half of the register is the union of the live masks. */
  ghost predicate Marks(sync: Word, held: seq<Mask>) {
    forall b: nat :: SwOwns(sync, b) <==> exists i :: 0 <= i < |held| && b in held[i]
  }

  /** With one agent: the semaphore is never on both sides, the agent has it throughout its
      critical section, a value about to be written is still right, and the software half of
      SW_FW_SYNC is the union of disjoint live masks. */
  ghost predicate Inv(s: State) {
    Formed(s) && |s.pcs| == 1
    && !(s.swesmbi && s.fwHolds)
    && (InCritical(s.pcs[0]) ==> s.swesmbi)
    && (s.swesmbi ==> InCritical(s.pcs[0]) || s.pcs[0].SemCheck?)
    && Exclusive(s) && Marks(s.sync, s.held[0])
    && (s.pcs[0].SyncWrite? ==> WriteOk(s, s.pcs[0].goal, s.pcs[0].value))
  }

  ghost predicate WriteOk(s: State, g: Goal, v: Word)
    requires |s.held| == 1 && GoalOk(g, s.held[0])
  {
    match g
    case Claim(m) => s.sync !! m + High(m) && v == s.sync + m
    case Release(i) => v == s.sync - s.held[0][i]
  }

  /** Claims of either side, guarded by the test of both halves, keep the halves apart. */
  lemma ClaimSplits(sync: Word, m: Mask)
    requires Split(sync) && sync !! m + High(m)
    ensures Split(sync + m) && Split(sync + High(m))
    ensures forall b: nat :: SwOwns(sync + High(m), b) <==> SwOwns(sync, b)
  {
    forall b: nat
      ensures !(SwOwns(sync + m, b) && FwOwns(sync + m, b))
      ensures !(SwOwns(sync + High(m), b) && FwOwns(sync + High(m), b))
      ensures SwOwns(sync + High(m), b) <==> SwOwns(sync, b)
    {
      assert !(SwOwns(sync, b) && FwOwns(sync, b));
      HighBit(m, b);
    }
  }

  lemma ClearSplits(sync: Word, w: Word)
    requires Split(sync)
    ensures Split(sync - w)
  {
    forall b: nat ensures !(SwOwns(sync - w, b) && FwOwns(sync - w, b)) {
      assert !(SwOwns(sync, b) && FwOwns(sync, b));
    }
  }

  lemma SameMarks(sync: Word, sync': Word, held: seq<Mask>)
    requires Marks(sync, held) && forall b: nat :: SwOwns(sync', b) <==> SwOwns(sync, b)
    ensures Marks(sync', held)
  {
    forall b: nat ensures SwOwns(sync', b) <==> exists i :: 0 <= i < |held| && b in held[i] {
      assert SwOwns(sync', b) <==> SwOwns(sync, b);
    }
  }

  lemma ClaimMarks(sync: Word, held: seq<Mask>, m: Mask)
    requires Marks(sync, held) && Apart(held) && sync !! m
    ensures Marks(sync + m, held + [m]) && Apart(held + [m])
  {
    var held' := held + [m];
    forall b: nat ensures SwOwns(sync + m, b) <==> exists i :: 0 <= i < |held'| && b in held'[i] {
      if b in m {
        assert b in held'[|held|];
      } else if SwOwns(sync, b) {
        var i :| 0 <= i < |held| && b in held[i];
        assert b in held'[i];
      } else {
        forall i | 0 <= i < |held'| ensures b !in held'[i] {
          if i < |held| { assert held'[i] == held[i]; }
        }
      }
    }
    forall i, j | 0 <= i < j < |held'| ensures held'[i] !! held'[j] {
      forall b | b in held'[i] ensures b !in held'[j] {
        assert b in held[i] && SwOwns(sync, b);
      }
    }
  }

  /** Clearing one of several disjoint masks leaves exactly the union of the others. */
  lemma ReleaseMarks(sync: Word, held: seq<Mask>, k: nat)
    requires Marks(sync, held) && Apart(held) && k < |held|
    ensures Marks(sync - held[k], RemoveAt(held, k)) && Apart(RemoveAt(held, k))
  {
    var rest := RemoveAt(held, k);
    forall b: nat ensures SwOwns(sync - held[k], b) <==> exists i :: 0 <= i < |rest| && b in rest[i] {
      assert SwOwns(sync, b) <==> exists i :: 0 <= i < |held| && b in held[i];
      if SwOwns(sync - held[k], b) {
        var i :| 0 <= i < |held| && b in held[i];
        assert b in rest[if i < k then i else i - 1];
      }
      forall i | 0 <= i < |rest| && b in rest[i] ensures SwOwns(sync - held[k], b) {
        var i' := if i < k then i else i + 1;
        assert b in held[i'] && held[if i' < k then i' else k] !! held[if i' < k then k else i'];
      }
    }
    forall i, j | 0 <= i < j < |rest| ensures rest[i] !! rest[j] {
      assert rest[i] == held[if i < k then i else i + 1] && rest[j] == held[if j < k then j else j + 1];
    }
  }

  lemma AccessKeeps(s: State)
    requires Inv(s) && !s.pcs[0].Idle?
    ensures Inv(AccessStep(s, 0))
  {
    if s.pcs[0].SyncWrite? {
      match s.pcs[0].goal {
        case Claim(m) =>
          ClaimMarks(s.sync, s.held[0], m);
          ClaimSplits(s.sync, m);
        case Release(i) =>
          ReleaseMarks(s.sync, s.held[0], i);
          ClearSplits(s.sync, s.held[0][i]);
      }
    }
  }

  lemma StepKeeps(s: State, step: Step)
    requires Inv(s) && Enabled(s, step)
    ensures Inv(Next(s, step))
  {
    match step
    case Access(_) => AccessKeeps(s);
    case FwClaim(m) =>
      if s.sync !! m + High(m) {
        ClaimSplits(s.sync, m);
        SameMarks(s.sync, s.sync + High(m), s.held[0]);
      }
    case FwRelease(m) =>
      ClearSplits(s.sync, High(m));
      SameMarks(s.sync, s.sync - High(m), s.held[0]);
    case _ =>
  }

  lemma {:induction false} RunKeeps(s: State, steps: seq<Step>, s': State)
    requires Inv(s) && Run(s, steps, s')
    ensures Inv(s')
    decreases |steps|
  {
    if steps != [] {
      StepKeeps(s, steps[0]);
      RunKeeps(Next(s, steps[0]), steps[1..], s');
    }
  }

  /** SW_FW_SYNC changes only under the semaphore, by whoever has it. */
  lemma SyncGuarded(s: State, step: Step)
    requires Inv(s) && Enabled(s, step) && Next(s, step).sync != s.sync
    ensures s.swesmbi != s.fwHolds
    ensures step.Access? <==> s.swesmbi
  {
  }

  /** Dropping a `Synced` clears its own bits, all of which were set, and nothing else. */
  lemma DropClearsOwn(s: State)
    requires Inv(s) && s.pcs[0].SyncWrite? && s.pcs[0].goal.Release?
    ensures var m, sync' := s.held[0][s.pcs[0].goal.i], AccessStep(s, 0).sync;
      (forall b :: b in m ==> SwOwns(s.sync, b))
      && (forall b: nat :: SwOwns(sync', b) <==> SwOwns(s.sync, b) && b !in m)
      && (forall b: nat :: FwOwns(sync', b) <==> FwOwns(s.sync, b))
  {
    var m := s.held[0][s.pcs[0].goal.i];
    forall b | b in m ensures SwOwns(s.sync, b) {
      assert exists i :: 0 <= i < |s.held[0]| && b in s.held[0][i];
    }
  }

  // ---- how many agents ----

  /** One more step in front of a run. */
  lemma RunCons(s: State, step: Step, t: State, rest: seq<Step>, s': State) returns (steps: seq<Step>)
    requires Formed(s) && Enabled(s, step) && Next(s, step) == t && Run(t, rest, s')
    ensures Run(s, steps, s')
  {
    steps := [step] + rest;
    assert steps[1..] == rest;
  }

  /** The start with agents 0 and 1 in the given positions and `sw` the state of SWESMBI. */
  function Pair(n: nat, sw: bool, x: Pc, y: Pc): State
    requires n >= 2
  {
    Start(n).(swesmbi := sw, pcs := Start(n).pcs[0 := x][1 := y])
  }

  const ONE: Mask := {0}

  /** Where agent 0, or both agents, have marked resource 0. */
  function Marked(n: nat, y: Pc, both: bool): State
    requires n >= 2
  {
    var one: seq<Mask> := [ONE];
    var held := Start(n).held[0 := one];
    Pair(n, true, SemDrop, y).(sync := ONE, held := if both then held[1 := one] else held)
  }

  /** Both agents in the critical section with resource 0 free: each marks it. */
  lemma BothMark(n: nat) returns (steps: seq<Step>)
    requires n >= 2
    ensures Run(Pair(n, true, SyncRead(Claim(ONE)), SyncRead(Claim(ONE))), steps, Marked(n, SemDrop, true))
  {
    var g, v, one: seq<Mask> := Claim(ONE), SyncWrite(Claim(ONE), ONE), [ONE];
    var s' := Marked(n, SemDrop, true);
    assert Start(n).sync + ONE == ONE && Start(n).sync !! ONE + High(ONE) && [] + one == one;
    assert Run(s', [], s');
    steps := RunCons(Marked(n, v, false), Access(1), s', [], s');
    steps := RunCons(Pair(n, true, v, v), Access(0), Marked(n, v, false), steps, s');
    steps := RunCons(Pair(n, true, v, SyncRead(g)), Access(1), Pair(n, true, v, v), steps, s');
    steps := RunCons(Pair(n, true, SyncRead(g), SyncRead(g)), Access(0), Pair(n, true, v, SyncRead(g)), steps, s');
  }

  /** Agent 1 gets in while agent 0 is inside: it reads back the bit agent 0 has set. */
  lemma SecondEnters(n: nat, rest: seq<Step>, s': State) returns (steps: seq<Step>)
    requires n >= 2 && Run(Pair(n, true, SyncRead(Claim(ONE)), SyncRead(Claim(ONE))), rest, s')
    ensures Run(Pair(n, true, SyncRead(Claim(ONE)), Idle), steps, s')
  {
    var g, inside := Claim(ONE), SyncRead(Claim(ONE));
    steps := RunCons(Pair(n, true, inside, SemCheck(g)), Access(1), Pair(n, true, inside, inside), rest, s');
    steps := RunCons(Pair(n, true, inside, SemWrite(g)), Access(1), Pair(n, true, inside, SemCheck(g)), steps, s');
    steps := RunCons(Pair(n, true, inside, SemRead(g)), Access(1), Pair(n, true, inside, SemWrite(g)), steps, s');
    steps := RunCons(Pair(n, true, inside, Idle), Begin(1, g), Pair(n, true, inside, SemRead(g)), steps, s');
  }

  lemma FirstEnters(n: nat, rest: seq<Step>, s': State) returns (steps: seq<Step>)
    requires n >= 2 && Run(Pair(n, true, SyncRead(Claim(ONE)), Idle), rest, s')
    ensures Run(Start(n), steps, s')
  {
    var g := Claim(ONE);
    steps := RunCons(Pair(n, true, SemCheck(g), Idle), Access(0), Pair(n, true, SyncRead(g), Idle), rest, s');
    steps := RunCons(Pair(n, false, SemWrite(g), Idle), Access(0), Pair(n, true, SemCheck(g), Idle), steps, s');
    steps := RunCons(Pair(n, false, SemRead(g), Idle), Access(0), Pair(n, false, SemWrite(g), Idle), steps, s');
    assert Pair(n, false, Idle, Idle) == Start(n);
    steps := RunCons(Start(n), Begin(0, g), Pair(n, false, SemRead(g), Idle), steps, s');
  }

  ghost predicate Reachable(agents: nat, s: State) {
    exists steps :: Run(Start(agents), steps, s)
  }

  /** A run in which two agents own resource 0 at once. */
  lemma TwoAgentsClash(n: nat)
    requires n >= 2
    ensures Reachable(n, Marked(n, SemDrop, true)) && !Exclusive(Marked(n, SemDrop, true))
  {
    var s' := Marked(n, SemDrop, true);
    var steps := BothMark(n);
    steps := SecondEnters(n, steps, s');
    steps := FirstEnters(n, steps, s');
    assert 0 in s'.held[0][0] && 0 in s'.held[1][0];
  }

  /** Mutual exclusion holds in all runs exactly with a single software agent: `Semaphore::new`
      never tests SMBI, the bit that tells software agents apart. */
  lemma ExclusionExact(n: nat)
    requires n >= 1
    ensures (forall s :: Reachable(n, s) ==> Exclusive(s)) <==> n == 1
  {
    if n == 1 {
      forall s | Reachable(1, s) ensures Exclusive(s) {
        var steps :| Run(Start(1), steps, s);
        RunKeeps(Start(1), steps, s);
      }
    } else {
      TwoAgentsClash(n);
    }
  }
}

/** The lock as the driver code runs it, register access by register access, with the firmware at
    work in between. `fw` says what firmware tries before each access. The calls are proved against
    `Driven`, the step machine of `PhySync` driven by that schedule; a call whose loops are still
    spinning when the schedule ends says so. */
module Phy {
  import opened PhySync

  predicate IsFirmware(step: Step) {
    !step.Begin? && !step.Access?
  }

  /** Firmware does what it is allowed to do of what it tries. */
  function AfterFirmware(s: State, acts: seq<Step>): (s': State)
    requires Formed(s)
    ensures Formed(s') && s'.pcs == s.pcs && s'.held == s.held && s'.swesmbi == s.swesmbi
    decreases |acts|
  {
    if acts == [] then s
    else if IsFirmware(acts[0]) && Enabled(s, acts[0]) then AfterFirmware(Next(s, acts[0]), acts[1..])
    else AfterFirmware(s, acts[1..])
  }

  /** One stretch of firmware activity and then the driver's next access, if it is in a call. */
  function DrivenOnce(s: State, acts: seq<Step>): (s': State)
    requires Formed(s) && |s.pcs| == 1
    ensures Formed(s') && |s'.pcs| == 1
  {
    var t := AfterFirmware(s, acts);
    if t.pcs[0].Idle? then t else AccessStep(t, 0)
  }

  function Driven(s: State, fw: seq<seq<Step>>): (s': State)
    requires Formed(s) && |s.pcs| == 1
    ensures Formed(s') && |s'.pcs| == 1
    decreases |fw|
  {
    if fw == [] then s else DrivenOnce(Driven(s, fw[..|fw| - 1]), fw[|fw| - 1])
  }

  lemma DrivenNext(s: State, fw: seq<seq<Step>>, k: nat)
    requires Formed(s) && |s.pcs| == 1 && k < |fw|
    ensures Driven(s, fw[..k + 1]) == DrivenOnce(Driven(s, fw[..k]), fw[k])
  {
    assert fw[..k + 1][..k] == fw[..k];
  }

  lemma {:induction false} FirmwareKeeps(s: State, acts: seq<Step>)
    requires Inv(s)
    ensures Inv(AfterFirmware(s, acts))
    decreases |acts|
  {
    if acts != [] {
      if IsFirmware(acts[0]) && Enabled(s, acts[0]) {
        StepKeeps(s, acts[0]);
        FirmwareKeeps(Next(s, acts[0]), acts[1..]);
      } else {
        FirmwareKeeps(s, acts[1..]);
      }
    }
  }

  /** Under every schedule the machine keeps the invariant of the lock. */
  lemma {:induction false} DrivenKeeps(s: State, fw: seq<seq<Step>>)
    requires Inv(s)
    ensures Inv(Driven(s, fw))
    decreases |fw|
  {
    if fw != [] {
      var before := Driven(s, fw[..|fw| - 1]);
      DrivenKeeps(s, fw[..|fw| - 1]);
      FirmwareKeeps(before, fw[|fw| - 1]);
      var t := AfterFirmware(before, fw[|fw| - 1]);
      if !t.pcs[0].Idle? {
        AccessKeeps(t);
      }
    }
  }

  lemma {:induction false} RunAppend(s: State, first: seq<Step>, mid: State, rest: seq<Step>, s': State)
    requires Run(s, first, mid) && Run(mid, rest, s')
    ensures Run(s, first + rest, s')
    decreases |first|
  {
    if first == [] {
      assert first + rest == rest;
    } else {
      RunAppend(Next(s, first[0]), first[1..], mid, rest, s');
      assert (first + rest)[0] == first[0] && (first + rest)[1..] == first[1..] + rest;
    }
  }

  lemma RunOne(s: State, step: Step)
    requires Formed(s) && Enabled(s, step)
    ensures Run(s, [step], Next(s, step))
  {
    assert [step][1..] == [];
    assert Run(Next(s, step), [], Next(s, step));
  }

  lemma {:induction false} FirmwareIsRun(s: State, acts: seq<Step>) returns (steps: seq<Step>)
    requires Formed(s)
    ensures Run(s, steps, AfterFirmware(s, acts))
    decreases |acts|
  {
    steps := [];
    if acts != [] {
      if IsFirmware(acts[0]) && Enabled(s, acts[0]) {
        var rest := FirmwareIsRun(Next(s, acts[0]), acts[1..]);
        RunOne(s, acts[0]);
        RunAppend(s, [acts[0]], Next(s, acts[0]), rest, AfterFirmware(s, acts));
        steps := [acts[0]] + rest;
      } else {
        steps := FirmwareIsRun(s, acts[1..]);
      }
    }
  }

  /** Where a schedule drives the machine, a run of its steps leads. */
  lemma {:induction false} DrivenIsRun(s: State, fw: seq<seq<Step>>) returns (steps: seq<Step>)
    requires Formed(s) && |s.pcs| == 1
    ensures Run(s, steps, Driven(s, fw))
    decreases |fw|
  {
    steps := [];
    if fw != [] {
      var before := Driven(s, fw[..|fw| - 1]);
      var after := AfterFirmware(before, fw[|fw| - 1]);
      steps := DrivenIsRun(s, fw[..|fw| - 1]);
      var more := FirmwareIsRun(before, fw[|fw| - 1]);
      RunAppend(s, steps, before, more, after);
      steps := steps + more;
      if !after.pcs[0].Idle? {
        RunOne(after, Access(0));
        RunAppend(s, steps, after, [Access(0)], AccessStep(after, 0));
        steps := steps + [Access(0)];
      }
    }
  }

  /** A whole call, begun by an idle driver, is a run. */
  lemma CallIsRun(s: State, goal: Goal, fw: seq<seq<Step>>) returns (steps: seq<Step>)
    requires Formed(s) && |s.pcs| == 1 && s.pcs[0].Idle? && GoalOk(goal, s.held[0])
    ensures Run(s, steps, Driven(Begun(s, goal), fw))
  {
    assert Next(s, Begin(0, goal)) == Begun(s, goal);
    RunOne(s, Begin(0, goal));
    var rest := DrivenIsRun(Begun(s, goal), fw);
    RunAppend(s, [Begin(0, goal)], Begun(s, goal), rest, Driven(Begun(s, goal), fw));
    steps := [Begin(0, goal)] + rest;
  }

  /** Firmware tries nothing. */
  predicate Quiet(fw: seq<seq<Step>>) {
    forall i :: 0 <= i < |fw| ==> fw[i] == []
  }

  /** A call has begun. */
  function Begun(s: State, goal: Goal): State
    requires |s.pcs| == 1
  {
    s.(pcs := [SemRead(goal)])
  }

  /** Registers SWSM and SW_FW_SYNC, the firmware's side of the semaphore, and the masks of the
      driver's live `Synced` values. */
  class Device {
    var swesmbi: bool
    var fwHolds: bool
    var sync: Word
    var held: seq<Mask>
    ghost var pc: Pc

    ghost function View(): State
      reads this
    {
      State(swesmbi, fwHolds, sync, [pc], [held])
    }

    /** The device is where the schedule's first `k` stretches lead from `s`. */
    ghost predicate At(s: State, fw: seq<seq<Step>>, k: nat)
      reads this
    {
      Formed(s) && |s.pcs| == 1 && k <= |fw| && View() == Driven(s, fw[..k])
    }

    method Firmware(acts: seq<Step>)
      requires Formed(View())
      modifies this`fwHolds, this`sync
      ensures View() == AfterFirmware(old(View()), acts)
    {
      for i := 0 to |acts|
        invariant Formed(View()) && AfterFirmware(old(View()), acts) == AfterFirmware(View(), acts[i..])
      {
        ghost var before := View();
        assert acts[i..][0] == acts[i] && acts[i..][1..] == acts[i + 1..];
        if IsFirmware(acts[i]) {
          match acts[i] {
            case FwLock => if !swesmbi { fwHolds := true; }
            case FwUnlock => if fwHolds { fwHolds := false; }
            case FwClaim(m) => if fwHolds && sync !! m + High(m) { sync := sync + High(m); }
            case FwRelease(m) => if fwHolds { sync := sync - High(m); }
          }
          assert View() == if Enabled(before, acts[i]) then Next(before, acts[i]) else before;
        }
      }
    }

    // One register access each, after stretch `k` of the schedule.

    method ReadSwsm(ghost s: State, ghost goal: Goal, fw: seq<seq<Step>>, k: nat)
      requires At(s, fw, k) && k < |fw| && pc == SemRead(goal)
      modifies this`fwHolds, this`sync, this`pc
      ensures At(s, fw, k + 1) && pc == SemWrite(goal)
      ensures fw[k] == [] ==> fwHolds == old(fwHolds) && sync == old(sync)
    {
      DrivenNext(s, fw, k);
      Firmware(fw[k]);
      pc := SemWrite(goal);
    }

    method WriteSwsm(ghost s: State, ghost goal: Goal, fw: seq<seq<Step>>, k: nat)
      requires At(s, fw, k) && k < |fw| && pc == SemWrite(goal)
      modifies this`swesmbi, this`fwHolds, this`sync, this`pc
      ensures At(s, fw, k + 1) && pc == SemCheck(goal)
      ensures fw[k] == [] ==> fwHolds == old(fwHolds) && sync == old(sync) && swesmbi == (old(swesmbi) || !old(fwHolds))
    {
      DrivenNext(s, fw, k);
      Firmware(fw[k]);
      if !fwHolds {
        swesmbi := true;
      }
      pc := SemCheck(goal);
    }

    method CheckSwsm(ghost s: State, ghost goal: Goal, fw: seq<seq<Step>>, k: nat) returns (got: bool)
      requires At(s, fw, k) && k < |fw| && pc == SemCheck(goal)
      modifies this`fwHolds, this`sync, this`pc
      ensures At(s, fw, k + 1) && got == swesmbi && pc == if got then SyncRead(goal) else SemRead(goal)
      ensures fw[k] == [] ==> fwHolds == old(fwHolds) && sync == old(sync)
    {
      DrivenNext(s, fw, k);
      Firmware(fw[k]);
      got := swesmbi;
      pc := if got then SyncRead(goal) else SemRead(goal);
    }

    /** Reads SW_FW_SYNC to take `mask`, if both halves of it are clear. */
    method ReadForClaim(ghost s: State, mask: Mask, fw: seq<seq<Step>>, k: nat) returns (free: bool, value: Word)
      requires At(s, fw, k) && k < |fw| && pc == SyncRead(Claim(mask))
      modifies this`fwHolds, this`sync, this`pc
      ensures At(s, fw, k + 1) && pc == if free then SyncWrite(Claim(mask), value) else SyncRead(Claim(mask))
      ensures fw[k] == [] ==> sync == old(sync) && (free <==> old(sync) !! mask + High(mask))
    {
      DrivenNext(s, fw, k);
      Firmware(fw[k]);
      free, value := sync !! mask + High(mask), sync + mask;
      if free {
        pc := SyncWrite(Claim(mask), value);
      }
    }

    /** Reads SW_FW_SYNC to give up the `i`-th mask. */
    method ReadForRelease(ghost s: State, i: nat, fw: seq<seq<Step>>, k: nat) returns (value: Word)
      requires At(s, fw, k) && k < |fw| && pc == SyncRead(Release(i)) && i < |held|
      modifies this`fwHolds, this`sync, this`pc
      ensures At(s, fw, k + 1) && pc == SyncWrite(Release(i), value)
    {
      DrivenNext(s, fw, k);
      Firmware(fw[k]);
      value := sync - held[i];
      pc := SyncWrite(Release(i), value);
    }

    /** The write of SW_FW_SYNC that takes or gives up a mask. */
    method WriteSync(ghost s: State, ghost goal: Goal, value: Word, held': seq<Mask>, fw: seq<seq<Step>>, k: nat)
      requires At(s, fw, k) && k < |fw| && pc == SyncWrite(goal, value)
      requires GoalOk(goal, held) && held' == match goal case Claim(m) => held + [m] case Release(i) => RemoveAt(held, i)
      modifies this`fwHolds, this`sync, this`held, this`pc
      ensures At(s, fw, k + 1) && pc == SemDrop && held == held'
    {
      DrivenNext(s, fw, k);
      Firmware(fw[k]);
      sync, held, pc := value, held', SemDrop;
    }

    /** `Semaphore`'s drop. */
    method SemaphoreDrop(ghost s: State, fw: seq<seq<Step>>, k: nat)
      requires At(s, fw, k) && k < |fw| && pc == SemDrop
      modifies this`swesmbi, this`fwHolds, this`sync, this`pc
      ensures At(s, fw, k + 1) && pc == Idle
    {
      DrivenNext(s, fw, k);
      Firmware(fw[k]);
      swesmbi, pc := false, Idle;
    }

    /** `Semaphore::new`: reads SWSM, sets SWESMBI, reads it back, until it stays. It goes on for as
        long as the schedule lasts; with firmware quiet and not holding the semaphore the first try
        succeeds. */
    method SemaphoreNew(ghost s: State, ghost goal: Goal, fw: seq<seq<Step>>, from: nat) returns (ok: bool, k: nat)
      requires At(s, fw, from) && pc == SemRead(goal)
      modifies this`swesmbi, this`fwHolds, this`sync, this`pc
      ensures At(s, fw, k) && from <= k && pc == if ok then SyncRead(goal) else SemRead(goal)
      ensures !ok ==> k + 3 > |fw|
      ensures Quiet(fw) && !old(fwHolds) && from + 3 <= |fw| ==>
                ok && k == from + 3 && fwHolds == old(fwHolds) && sync == old(sync)
    {
      ok, k := false, from;
      while !ok && k + 3 <= |fw|
        invariant from <= k && At(s, fw, k) && pc == if ok then SyncRead(goal) else SemRead(goal)
        invariant Quiet(fw) && !old(fwHolds) ==>
                    fwHolds == old(fwHolds) && sync == old(sync) && k == if ok then from + 3 else from
        decreases |fw| - k
      {
        ReadSwsm(s, goal, fw, k);
        WriteSwsm(s, goal, fw, k + 1);
        ok := CheckSwsm(s, goal, fw, k + 2);
        k := k + 3;
      }
    }

    /** The wait of `Synced::new` for both halves of the mask to be clear. It goes on for as long as
        the schedule lasts; with firmware quiet the first read decides. */
    method AwaitFree(ghost s: State, mask: Mask, fw: seq<seq<Step>>, from: nat) returns (ok: bool, value: Word, k: nat)
      requires At(s, fw, from) && pc == SyncRead(Claim(mask))
      modifies this`fwHolds, this`sync, this`pc
      ensures At(s, fw, k) && from <= k && pc == if ok then SyncWrite(Claim(mask), value) else SyncRead(Claim(mask))
      ensures !ok ==> k == |fw|
      ensures Quiet(fw) && from < |fw| ==> (ok <==> old(sync) !! mask + High(mask)) && (ok ==> k == from + 1)
    {
      ok, value, k := false, {}, from;
      while !ok && k < |fw|
        invariant from <= k && At(s, fw, k)
        invariant pc == if ok then SyncWrite(Claim(mask), value) else SyncRead(Claim(mask))
        invariant Quiet(fw) ==> sync == old(sync) && (ok ==> k == from + 1)
        invariant Quiet(fw) && from < k ==> (ok <==> old(sync) !! mask + High(mask))
        decreases |fw| - k
      {
        ok, value := ReadForClaim(s, mask, fw, k);
        k := k + 1;
      }
    }

    /** The call writes SW_FW_SYNC and releases the semaphore. */
    method Leave(ghost s: State, ghost goal: Goal, value: Word, held': seq<Mask>, fw: seq<seq<Step>>, from: nat)
      returns (ok: bool, k: nat)
      requires At(s, fw, from) && pc == SyncWrite(goal, value)
      requires GoalOk(goal, held) && held' == match goal case Claim(m) => held + [m] case Release(i) => RemoveAt(held, i)
      modifies this
      ensures At(s, fw, k) && from <= k && (ok <==> from + 2 <= |fw|) && (ok ==> pc == Idle && held == held')
      ensures !ok ==> pc == SyncWrite(goal, value) && k == from
    {
      ok, k := from + 2 <= |fw|, from;
      if ok {
        WriteSync(s, goal, value, held', fw, k);
        SemaphoreDrop(s, fw, k + 1);
        k := k + 2;
      }
    }

    /** `Synced::new`: it ends exactly where the machine driven by the schedule has ended, and gives up
        only with the schedule. If it returns, the mask is the driver's alone: no other live mask
        shares a resource with it, and none is firmware's. With firmware quiet and not holding the
        semaphore it returns exactly when the mask is free on both sides. */
    method SyncedNew(mask: Mask, fw: seq<seq<Step>>) returns (ok: bool, k: nat)
      requires Inv(View()) && pc == Idle
      modifies this
      ensures k <= |fw| && View() == Driven(Begun(old(View()), Claim(mask)), fw[..k]) && Inv(View())
      ensures (ok <==> pc == Idle) && (!ok ==> k + 3 > |fw|)
      ensures ok ==> held == old(held) + [mask] && !swesmbi
      ensures ok ==> forall i :: 0 <= i < |old(held)| ==> old(held)[i] !! mask
      ensures ok ==> forall b :: b in mask ==> SwOwns(sync, b) && !FwOwns(sync, b)
      ensures Quiet(fw) && !old(fwHolds) && |fw| >= 6 ==> (ok <==> old(sync) !! mask + High(mask))
    {
      ghost var s := Begun(View(), Claim(mask));
      pc := SemRead(Claim(mask));
      assert fw[..0] == [];
      var value;
      ok, k := SemaphoreNew(s, Claim(mask), fw, 0);
      if ok {
        ok, value, k := AwaitFree(s, mask, fw, k);
        if ok {
          ok, k := Leave(s, Claim(mask), value, held + [mask], fw, k);
        }
      }
      DrivenKeeps(s, fw[..k]);
      if ok {
        LastIsOwned(View());
        assert forall i :: 0 <= i < |old(held)| ==> held[i] == old(held)[i];
      }
    }

    /** `Synced`'s drop: likewise; if it returns, the driver's half of the register is exactly what the
        other live masks cover. With firmware quiet and not holding the semaphore it returns. */
    method SyncedDrop(i: nat, fw: seq<seq<Step>>) returns (ok: bool, k: nat)
      requires Inv(View()) && pc == Idle && i < |held|
      modifies this
      ensures k <= |fw| && View() == Driven(Begun(old(View()), Release(i)), fw[..k]) && Inv(View())
      ensures (ok <==> pc == Idle) && (!ok ==> k + 3 > |fw|)
      ensures ok ==> held == RemoveAt(old(held), i) && !swesmbi
      ensures ok ==> forall b: nat :: SwOwns(sync, b) <==> exists j :: 0 <= j < |held| && b in held[j]
      ensures Quiet(fw) && !old(fwHolds) && |fw| >= 6 ==> ok
    {
      ghost var s := Begun(View(), Release(i));
      pc := SemRead(Release(i));
      assert fw[..0] == [];
      ok, k := SemaphoreNew(s, Release(i), fw, 0);
      ok := ok && k < |fw|;
      if ok {
        var value := ReadForRelease(s, i, fw, k);
        ok, k := Leave(s, Release(i), value, RemoveAt(held, i), fw, k + 1);
      }
      DrivenKeeps(s, fw[..k]);
    }
  }

  lemma LastIsOwned(s: State)
    requires Inv(s) && s.held[0] != []
    ensures var last := |s.held[0]| - 1;
      (forall i :: 0 <= i < last ==> s.held[0][i] !! s.held[0][last])
      && forall b :: b in s.held[0][last] ==> SwOwns(s.sync, b) && !FwOwns(s.sync, b)
  {
    var held := s.held[0];
    forall b | b in held[|held| - 1] ensures SwOwns(s.sync, b) && !FwOwns(s.sync, b) {
      assert SwOwns(s.sync, b) <==> exists i :: 0 <= i < |held| && b in held[i];
      assert !(SwOwns(s.sync, b) && FwOwns(s.sync, b));
    }
  }
}

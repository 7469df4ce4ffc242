/** Warm restart in the device manager: whose mode the clients get, and when the
    in-progress flag is cleared. */
module DeviceModes {
  import opened Status
  import opened Clients
  import opened PipeScope
  import opened Devices
  import opened DeviceRuns
  import opened DeviceOrder

  /** The mode of the latest successful warm-init begin since slot d was last empty. */
  ghost function BegunMode(cfg: Config, devices: nat, ops: seq<Op>, d: nat): (m: Mode)
    requires LegalRun(cfg, devices, ops) && d < devices
  {
    if ops == [] then Cold
    else
      var before, op := ops[..|ops| - 1], ops[|ops| - 1];
      if Run(cfg, devices, ops).slots[d].None? then Cold
      else if op.Begin? && op.dev == d && Step(cfg, Run(cfg, devices, before), op).1 == BF_SUCCESS then op.mode
      else BegunMode(cfg, devices, before, d)
  }

  /** An operation changes the mode of a slot only by emptying it or by a successful begin. */
  lemma StepKeepsMode(cfg: Config, w: World, op: Op, d: nat)
    requires Legal(cfg, w, op) && d < |w.slots|
    ensures var (w', status) := Step(cfg, w, op);
      w'.slots[d].Some? ==>
        w'.slots[d].value.mode ==
          if op.Begin? && op.dev == d && status == BF_SUCCESS then op.mode
          else if w.slots[d].Some? then w.slots[d].value.mode else Cold
  {
  }

  /** An occupied slot holds the mode of the latest begin. */
  lemma {:induction false} ModeIsLatestBegin(cfg: Config, devices: nat, ops: seq<Op>, d: nat)
    requires LegalRun(cfg, devices, ops) && d < devices
    ensures var slot := Run(cfg, devices, ops).slots[d];
      BegunMode(cfg, devices, ops, d) == if slot.Some? then slot.value.mode else Cold
  {
    if ops != [] {
      var before := ops[..|ops| - 1];
      ModeIsLatestBegin(cfg, devices, before, d);
      assert Legal(cfg, Start(devices), ops[|ops| - 1]);
      StepKeepsMode(cfg, Run(cfg, devices, before), ops[|ops| - 1], d);
    }
  }

  /** device_add is only called by bf_device_add, with the slot's mode. */
  lemma StepCallsWithMode(cfg: Config, w: World, op: Op)
    requires Legal(cfg, w, op)
    ensures w.trace <= Step(cfg, w, op).0.trace
    ensures forall e | e in Step(cfg, w, op).0.trace[|w.trace|..] && e.AddCall? ::
      && op.Add? && e.dev == op.dev
      && e.mode == if w.slots[op.dev].Some? then w.slots[op.dev].value.mode else Cold
  {
    var t, w' := cfg.clients, Step(cfg, w, op).0;
    match op
    case End(_) =>
    case Remove(dev, delRes) => RoundOfDels(t, w, dev, delRes);
    case Begin(dev, mode, alloc, delRes) => RoundOfDels(t, w, dev, delRes);
    case Add(dev, family, profile, isSwModel, alloc, addRes, delRes) =>
      var slot := w.slots[dev];
      if Attempted(cfg, w, dev, profile, alloc) {
        var mode := if slot.Some? then slot.value.mode else Cold;
        var local := if profile.Some? then Some(CleanProfile(profile.value, cfg.numPipes)) else None;
        RoundOfAdds(t, w, dev, mode, local, addRes, delRes);
      }
  }

  lemma RoundOfDels(t: seq<Client>, w: World, dev: nat, delRes: Answers)
    ensures (w.trace + DelDown(t, |t|, dev, delRes))[|w.trace|..] == DelDown(t, |t|, dev, delRes)
    ensures forall e | e in DelDown(t, |t|, dev, delRes) :: e.DelCall?
  {
    DelDownOnlyDels(t, |t|, dev, delRes);
  }

  lemma RoundOfAdds(t: seq<Client>, w: World, dev: nat, mode: Mode, profile: Option<Profile>, addRes: Answers,
                    delRes: Answers)
    ensures var events := AddFrom(t, 0, dev, mode, profile, addRes).0; var dels := DelDown(t, |t|, dev, delRes);
      && (w.trace + events)[|w.trace|..] == events
      && (w.trace + events + dels)[|w.trace|..] == events + dels
      && (forall e | e in events :: e.AddCall? && e.dev == dev && e.mode == mode)
      && (forall e | e in dels :: e.DelCall?)
  {
    AddFromRound(t, 0, dev, mode, profile, addRes);
    DelDownOnlyDels(t, |t|, dev, delRes);
  }

  /** Every device_add call of a run carries the mode of the latest successful begin
      since the slot was last empty, or cold. */
  lemma ClientsGetLatestMode(cfg: Config, devices: nat, ops: seq<Op>, op: Op)
    requires LegalRun(cfg, devices, ops) && Legal(cfg, Start(devices), op)
    ensures var w := Run(cfg, devices, ops);
      forall e | e in Step(cfg, w, op).0.trace[|w.trace|..] && e.AddCall? ::
        e.dev < devices && e.mode == BegunMode(cfg, devices, ops, e.dev)
  {
    ModeIsLatestBegin(cfg, devices, ops, op.dev);
    StepCallsWithMode(cfg, Run(cfg, devices, ops), op);
  }

  // ---------- the in-progress flag ----------

  /** A warm restart in progress has a warm mode. */
  ghost predicate ProgressIsWarm(w: World)
  {
    forall d | 0 <= d < |w.slots| :: w.slots[d].Some? && w.slots[d].value.inProgress ==> w.slots[d].value.mode != Cold
  }

  ghost predicate WarmThroughout(cfg: Config, devices: nat, ops: seq<Op>)
    requires LegalRun(cfg, devices, ops)
  {
    ProgressIsWarm(Run(cfg, devices, ops)) && (ops == [] || WarmThroughout(cfg, devices, ops[..|ops| - 1]))
  }

  /** No warm-init begin of the run succeeded with the cold mode. */
  ghost predicate NoColdBegin(cfg: Config, devices: nat, ops: seq<Op>)
    requires LegalRun(cfg, devices, ops)
  {
    ops == [] ||
    (var before, op := ops[..|ops| - 1], ops[|ops| - 1];
     && NoColdBegin(cfg, devices, before)
     && !(op.Begin? && op.mode == Cold && Step(cfg, Run(cfg, devices, before), op).1 == BF_SUCCESS))
  }

  lemma StepProgress(cfg: Config, w: World, op: Op)
    requires Legal(cfg, w, op) && ProgressIsWarm(w)
    ensures ProgressIsWarm(Step(cfg, w, op).0) <==>
      !(op.Begin? && op.mode == Cold && Step(cfg, w, op).1 == BF_SUCCESS)
  {
    var w' := Step(cfg, w, op).0;
    assert forall d | 0 <= d < |w.slots| && d != op.dev :: w'.slots[d] == w.slots[d];
    var slot, slot' := w.slots[op.dev], w'.slots[op.dev];
    assert slot.Some? && slot.value.inProgress ==> slot.value.mode != Cold;
    if op.Begin? && op.mode == Cold && Step(cfg, w, op).1 == BF_SUCCESS {
      assert slot'.Some? && slot'.value.inProgress && slot'.value.mode == Cold;
    } else {
      assert slot'.Some? && slot'.value.inProgress ==> slot'.value.mode != Cold;
    }
  }

  /** Progress is warm throughout a run exactly when no begin succeeded with the cold mode. */
  lemma {:induction false} WarmIffNoColdBegin(cfg: Config, devices: nat, ops: seq<Op>)
    requires LegalRun(cfg, devices, ops)
    ensures WarmThroughout(cfg, devices, ops) <==> NoColdBegin(cfg, devices, ops)
  {
    if ops != [] {
      var before := ops[..|ops| - 1];
      WarmIffNoColdBegin(cfg, devices, before);
      assert Legal(cfg, Start(devices), ops[|ops| - 1]);
      if WarmThroughout(cfg, devices, before) {
        StepProgress(cfg, Run(cfg, devices, before), ops[|ops| - 1]);
      }
    }
  }

  /** In such a run ending the warm restart of a complete device clears the flag. */
  lemma EndClearsProgress(cfg: Config, devices: nat, ops: seq<Op>, d: nat)
    requires LegalRun(cfg, devices, ops) && NoColdBegin(cfg, devices, ops) && d < devices
    requires Done(Run(cfg, devices, ops).slots[d])
    ensures var (w', status) := DoEnd(Run(cfg, devices, ops), d);
      status == BF_SUCCESS && Done(w'.slots[d]) && !w'.slots[d].value.inProgress
  {
    WarmIffNoColdBegin(cfg, devices, ops);
  }

  /** The slot is in a restart begun with the cold mode. */
  ghost predicate ColdRestart(slot: Slot)
  {
    slot.Some? && slot.value.inProgress && slot.value.mode == Cold
  }

  /** Since the first n operations slot d was never emptied and no begin of it succeeded. */
  ghost predicate KeptSince(cfg: Config, devices: nat, ops: seq<Op>, n: nat, d: nat)
    requires n <= |ops| && LegalRun(cfg, devices, ops) && d < devices
  {
    n == |ops| ||
    (var before, op := ops[..|ops| - 1], ops[|ops| - 1];
     && KeptSince(cfg, devices, before, n, d)
     && Run(cfg, devices, ops).slots[d].Some?
     && !(op.Begin? && op.dev == d && Step(cfg, Run(cfg, devices, before), op).1 == BF_SUCCESS))
  }

  lemma StepKeepsColdRestart(cfg: Config, w: World, op: Op, d: nat)
    requires Legal(cfg, w, op) && d < |w.slots| && ColdRestart(w.slots[d])
    requires !(op.Begin? && op.dev == d && Step(cfg, w, op).1 == BF_SUCCESS)
    ensures var slot := Step(cfg, w, op).0.slots[d]; slot.Some? ==> ColdRestart(slot)
  {
  }

  /** No number of ends, and nothing else either, ends a restart that was begun with the
      cold mode: it stays in progress until the slot is emptied or begun once more. */
  lemma {:induction false} ColdBeginIsNeverEnded(cfg: Config, devices: nat, ops: seq<Op>, n: nat, d: nat)
    requires LegalRun(cfg, devices, ops) && d < devices && n < |ops|
    requires LegalRun(cfg, devices, ops[..n]) && Legal(cfg, Start(devices), ops[n])
    requires ops[n].Begin? && ops[n].dev == d && ops[n].mode == Cold
    requires Step(cfg, Run(cfg, devices, ops[..n]), ops[n]).1 == BF_SUCCESS
    requires KeptSince(cfg, devices, ops, n + 1, d)
    ensures ColdRestart(Run(cfg, devices, ops).slots[d])
  {
    var before := ops[..|ops| - 1];
    if n + 1 == |ops| {
      assert before == ops[..n];
    } else {
      assert before[..n] == ops[..n] && before[n] == ops[n];
      ColdBeginIsNeverEnded(cfg, devices, before, n, d);
      assert Legal(cfg, Start(devices), ops[|ops| - 1]);
      StepKeepsColdRestart(cfg, Run(cfg, devices, before), ops[|ops| - 1], d);
    }
  }

  /** Begin with the cold mode, add, end: the restart is still in progress. */
  lemma ColdRestartRun(cfg: Config, devices: nat, d: nat) returns (ops: seq<Op>)
    requires d < devices
    ensures ops == [Begin(d, Cold, true, OK), PlainAdd(d), End(d)]
    ensures LegalRun(cfg, devices, ops)
    ensures Done(Run(cfg, devices, ops).slots[d]) && ColdRestart(Run(cfg, devices, ops).slots[d])
  {
    ops := [Begin(d, Cold, true, OK), PlainAdd(d), End(d)];
    RunOfThree(cfg, devices, ops[0], ops[1], ops[2]);
    AllSucceed(cfg.clients, 0, d, Cold, None);
  }
}

/**
 The daemon's own layer over the device manager (bf_switchd/bf_switchd.c): a lock
 and a ready flag for each device and one init mode for all of them.
 */
module Switchd {
  import opened Status
  import opened Clients
  import opened PipeScope
  import opened Devices
  import opened DeviceRuns

  /** What the configuration says of a device. */
  datatype Board = Board(configured: bool, isVirtual: bool, isSwModel: bool, family: int)

  datatype Daemon = Daemon(world: World, initMode: Mode, locked: seq<bool>, ready: seq<bool>)

  /** What the environment supplies to bf_switchd_device_add: the outcome of building
      the profile, the profile, memory, and the clients' answers. */
  datatype Supply = Supply(profileStatus: Code, profile: Profile, alloc: bool, addRes: Answers, delRes: Answers)

  datatype Op =
    | Begin(dev: nat, mode: Mode, alloc: bool, delRes: Answers)
    | Add(dev: nat, supply: Supply)
    | End(dev: nat)

  ghost predicate Sized(boards: seq<Board>, s: Daemon)
  {
    |s.world.slots| == |s.locked| == |s.ready| == |boards|
  }

  ghost predicate Supplied(cfg: Config, supply: Supply)
  {
    ProfileFits(supply.profile, cfg.numPipes)
  }

  // ---------- the operations ----------

  ghost function DoBegin(cfg: Config, boards: seq<Board>, s: Daemon, dev: nat, mode: Mode, alloc: bool, delRes: Answers)
    : (r: (Daemon, Code))
    requires Sized(boards, s)
    ensures Sized(boards, r.0)
  {
    if dev >= |boards| then (s, BF_INVALID_ARG)
    else if !s.ready[dev] then (s, BF_NOT_READY)
    else
      var world := Devices.DoBegin(cfg, s.world, dev, mode, alloc, delRes).0;
      (Daemon(world, mode, s.locked[dev := true], s.ready), BF_SUCCESS)
  }

  ghost function DoAdd(cfg: Config, boards: seq<Board>, s: Daemon, dev: nat, supply: Supply): (r: (Daemon, Code))
    requires Sized(boards, s) && Supplied(cfg, supply)
    ensures Sized(boards, r.0)
  {
    if dev >= |boards| then (s, BF_INVALID_ARG)
    else if boards[dev].configured && supply.profileStatus != BF_SUCCESS then (s, supply.profileStatus)
    else
      var (world, status) := Devices.DoAdd(cfg, s.world, dev, boards[dev].family, Some(supply.profile),
                                           boards[dev].isSwModel, supply.alloc, supply.addRes, supply.delRes);
      if status != BF_SUCCESS then (s.(world := world), status)
      else (s.(world := world, ready := s.ready[dev := true]), status)
  }

  ghost function DoEnd(boards: seq<Board>, s: Daemon, dev: nat): (r: (Daemon, Code))
    requires Sized(boards, s)
    ensures Sized(boards, r.0)
  {
    if dev >= |boards| then (s, BF_SUCCESS)
    else if !s.locked[dev] then (s.(initMode := Cold), BF_SUCCESS)
    else
      var (world, status) := Devices.DoEnd(s.world, dev);
      (Daemon(world, Cold, s.locked[dev := false], s.ready),
       if boards[dev].isVirtual || boards[dev].isSwModel then status else BF_SUCCESS)
  }

  /** Start-up in a high-availability mode begins a warm restart of every device. */
  predicate StartsWarm(mode: Mode)
  {
    mode == FastRecfg || mode == Hitless
  }

  /** Start-up of one configured device. */
  ghost function BringUp(cfg: Config, boards: seq<Board>, s: Daemon, dev: nat, alloc: bool, supply: Supply): (r: Daemon)
    requires Sized(boards, s) && Supplied(cfg, supply) && dev < |boards|
    ensures Sized(boards, r)
  {
    var s1 := if !StartsWarm(s.initMode) then s else
      s.(locked := s.locked[dev := true],
         world := Devices.DoBegin(cfg, s.world, dev, s.initMode, alloc, supply.delRes).0);
    DoAdd(cfg, boards, s1, dev, supply).0
  }

  /** Start-up of the first n devices. */
  ghost function BringUpAll(cfg: Config, boards: seq<Board>, mode: Mode, alloc: nat -> bool, supplies: seq<Supply>, n: nat)
    : (r: Daemon)
    requires n <= |boards| == |supplies| && forall k | 0 <= k < |supplies| :: Supplied(cfg, supplies[k])
    ensures Sized(boards, r)
  {
    if n == 0 then
      Daemon(Start(|boards|), mode, seq(|boards|, _ => false), seq(|boards|, _ => false))
    else
      var s := BringUpAll(cfg, boards, mode, alloc, supplies, n - 1);
      if boards[n - 1].configured then BringUp(cfg, boards, s, n - 1, alloc(n - 1), supplies[n - 1]) else s
  }

  ghost function Startup(cfg: Config, boards: seq<Board>, mode: Mode, alloc: nat -> bool, supplies: seq<Supply>): (r: Daemon)
    requires |boards| == |supplies| && forall k | 0 <= k < |supplies| :: Supplied(cfg, supplies[k])
    ensures Sized(boards, r)
  {
    var s := BringUpAll(cfg, boards, mode, alloc, supplies, |boards|);
    if StartsWarm(s.initMode) then s.(initMode := Cold) else s
  }

  ghost predicate Legal(cfg: Config, op: Op)
  {
    op.Add? ==> Supplied(cfg, op.supply)
  }

  ghost function Step(cfg: Config, boards: seq<Board>, s: Daemon, op: Op): (r: (Daemon, Code))
    requires Sized(boards, s) && Legal(cfg, op)
    ensures Sized(boards, r.0)
  {
    match op
    case Begin(dev, mode, alloc, delRes) => DoBegin(cfg, boards, s, dev, mode, alloc, delRes)
    case Add(dev, supply) => DoAdd(cfg, boards, s, dev, supply)
    case End(dev) => DoEnd(boards, s, dev)
  }

  ghost predicate LegalRun(cfg: Config, ops: seq<Op>)
  {
    forall k | 0 <= k < |ops| :: Legal(cfg, ops[k])
  }

  /** The daemon after operations made from state s on. */
  ghost function Run(cfg: Config, boards: seq<Board>, s: Daemon, ops: seq<Op>): (r: Daemon)
    requires Sized(boards, s) && LegalRun(cfg, ops)
    ensures Sized(boards, r)
  {
    if ops == [] then s else Step(cfg, boards, Run(cfg, boards, s, ops[..|ops| - 1]), ops[|ops| - 1]).0
  }

  // ---------- start-up ----------

  lemma {:induction false} BringUpKeepsMode(cfg: Config, boards: seq<Board>, mode: Mode, alloc: nat -> bool,
                                            supplies: seq<Supply>, n: nat)
    requires n <= |boards| == |supplies| && forall k | 0 <= k < |supplies| :: Supplied(cfg, supplies[k])
    ensures BringUpAll(cfg, boards, mode, alloc, supplies, n).initMode == mode
  {
    if n > 0 {
      BringUpKeepsMode(cfg, boards, mode, alloc, supplies, n - 1);
    }
  }

  /** Start-up ends cold exactly when it is not asked for the quick mode, which the
      command line does not offer. */
  lemma StartupEndsCold(cfg: Config, boards: seq<Board>, mode: Mode, alloc: nat -> bool, supplies: seq<Supply>)
    requires |boards| == |supplies| && forall k | 0 <= k < |supplies| :: Supplied(cfg, supplies[k])
    ensures Startup(cfg, boards, mode, alloc, supplies).initMode == Cold <==> mode != FastRecfgQuick
  {
    BringUpKeepsMode(cfg, boards, mode, alloc, supplies, |boards|);
  }

  // ---------- mode and lock ----------

  /** The daemon takes the begin: the device exists and is ready. */
  ghost predicate Accepted(boards: seq<Board>, s: Daemon, op: Op)
    requires Sized(boards, s)
  {
    op.Begin? && op.dev < |boards| && s.ready[op.dev]
  }

  /** The latest begin that was accepted since no end has set the mode back. */
  ghost function OpenBegin(cfg: Config, boards: seq<Board>, s: Daemon, ops: seq<Op>): (r: Option<Op>)
    requires Sized(boards, s) && LegalRun(cfg, ops)
    ensures r.Some? ==> r.value.Begin? && r.value.dev < |boards|
  {
    if ops == [] then None
    else
      var before, op := ops[..|ops| - 1], ops[|ops| - 1];
      if Accepted(boards, Run(cfg, boards, s, before), op) then Some(op)
      else if op.End? && op.dev < |boards| then None
      else OpenBegin(cfg, boards, s, before)
  }

  /** From a cold state on, the init mode is that of the latest accepted begin as long as no
      end came after it, and cold otherwise; and that begin's device is locked. */
  lemma {:induction false} InitModeIsOpenBegin(cfg: Config, boards: seq<Board>, s: Daemon, ops: seq<Op>)
    requires Sized(boards, s) && LegalRun(cfg, ops) && s.initMode == Cold
    ensures var s', begun := Run(cfg, boards, s, ops), OpenBegin(cfg, boards, s, ops);
      && s'.initMode == (if begun.Some? then begun.value.mode else Cold)
      && (begun.Some? ==> s'.locked[begun.value.dev])
  {
    if ops != [] {
      InitModeIsOpenBegin(cfg, boards, s, ops[..|ops| - 1]);
    }
  }

  /** A warm init mode means that the device whose restart was begun last is locked. */
  ghost predicate WarmMeansLocked(cfg: Config, boards: seq<Board>, s: Daemon, ops: seq<Op>)
    requires Sized(boards, s) && LegalRun(cfg, ops)
  {
    var s', begun := Run(cfg, boards, s, ops), OpenBegin(cfg, boards, s, ops);
    s'.initMode != Cold ==> begun.Some? && begun.value.mode == s'.initMode && s'.locked[begun.value.dev]
  }

  /** bf_switchd_warm_init_end on a device leaves it unlocked and the daemon cold, and
      keeps a failure of the driver to itself on real hardware. */
  lemma EndUnlocks(boards: seq<Board>, s: Daemon, dev: nat)
    requires Sized(boards, s) && dev < |boards|
    ensures var (s', status) := DoEnd(boards, s, dev);
      && !s'.locked[dev] && s'.initMode == Cold && s'.ready == s.ready
      && (status == BF_SUCCESS <==>
            !s.locked[dev] || Done(s.world.slots[dev]) || !(boards[dev].isVirtual || boards[dev].isSwModel))
  {
  }

  // ---------- the two layers ----------

  ghost predicate InProgress(w: World, d: nat)
    requires d < |w.slots|
  {
    w.slots[d].Some? && w.slots[d].value.inProgress
  }

  /** A restart in progress in the driver is of a device locked by the daemon. */
  ghost predicate LayersAgree(boards: seq<Board>, s: Daemon)
    requires Sized(boards, s)
  {
    forall d | 0 <= d < |boards| :: InProgress(s.world, d) ==> s.locked[d]
  }

  /** Ends a restart that the driver does not end: the device was not added again, or
      the restart was begun with the cold mode. */
  ghost predicate EndsTooEarly(boards: seq<Board>, s: Daemon, op: Op)
    requires Sized(boards, s)
  {
    && op.End? && op.dev < |boards| && s.locked[op.dev] && InProgress(s.world, op.dev)
    && !(Done(s.world.slots[op.dev]) && s.world.slots[op.dev].value.mode != Cold)
  }

  lemma StepKeepsLayers(cfg: Config, boards: seq<Board>, s: Daemon, op: Op)
    requires Sized(boards, s) && Legal(cfg, op) && LayersAgree(boards, s)
    ensures LayersAgree(boards, Step(cfg, boards, s, op).0) <==> !EndsTooEarly(boards, s, op)
  {
    var s' := Step(cfg, boards, s, op).0;
    assert forall d | 0 <= d < |boards| && d != op.dev ::
      s'.world.slots[d] == s.world.slots[d] && s'.locked[d] == s.locked[d];
    if op.dev < |boards| {
      assert InProgress(s.world, op.dev) ==> s.locked[op.dev];
      if EndsTooEarly(boards, s, op) {
        assert InProgress(s'.world, op.dev) && !s'.locked[op.dev];
      }
    }
  }

  ghost predicate AgreeThroughout(cfg: Config, boards: seq<Board>, s: Daemon, ops: seq<Op>)
    requires Sized(boards, s) && LegalRun(cfg, ops)
  {
    && LayersAgree(boards, Run(cfg, boards, s, ops))
    && (ops == [] || AgreeThroughout(cfg, boards, s, ops[..|ops| - 1]))
  }

  ghost predicate NoEarlyEnd(cfg: Config, boards: seq<Board>, s: Daemon, ops: seq<Op>)
    requires Sized(boards, s) && LegalRun(cfg, ops)
  {
    ops == [] ||
    (&& NoEarlyEnd(cfg, boards, s, ops[..|ops| - 1])
     && !EndsTooEarly(boards, Run(cfg, boards, s, ops[..|ops| - 1]), ops[|ops| - 1]))
  }

  /** The two layers agree throughout a run exactly when no end comes too early. */
  lemma {:induction false} LayersAgreeIff(cfg: Config, boards: seq<Board>, s: Daemon, ops: seq<Op>)
    requires Sized(boards, s) && LegalRun(cfg, ops) && LayersAgree(boards, s)
    ensures AgreeThroughout(cfg, boards, s, ops) <==> NoEarlyEnd(cfg, boards, s, ops)
  {
    if ops != [] {
      var before := ops[..|ops| - 1];
      LayersAgreeIff(cfg, boards, s, before);
      if AgreeThroughout(cfg, boards, s, before) {
        StepKeepsLayers(cfg, boards, Run(cfg, boards, s, before), ops[|ops| - 1]);
      }
    }
  }

  /** Start-up, in whatever mode, leaves the layers in agreement. */
  lemma {:induction false} BringUpAgrees(cfg: Config, boards: seq<Board>, mode: Mode, alloc: nat -> bool,
                                         supplies: seq<Supply>, n: nat)
    requires n <= |boards| == |supplies| && forall k | 0 <= k < |supplies| :: Supplied(cfg, supplies[k])
    ensures LayersAgree(boards, BringUpAll(cfg, boards, mode, alloc, supplies, n))
  {
    if n > 0 {
      BringUpAgrees(cfg, boards, mode, alloc, supplies, n - 1);
      var s := BringUpAll(cfg, boards, mode, alloc, supplies, n - 1);
      if boards[n - 1].configured {
        BringUpOneAgrees(cfg, boards, s, n - 1, alloc(n - 1), supplies[n - 1]);
      }
    }
  }

  lemma BringUpOneAgrees(cfg: Config, boards: seq<Board>, s: Daemon, dev: nat, alloc: bool, supply: Supply)
    requires Sized(boards, s) && Supplied(cfg, supply) && dev < |boards| && LayersAgree(boards, s)
    ensures LayersAgree(boards, BringUp(cfg, boards, s, dev, alloc, supply))
  {
    var s1 := if !StartsWarm(s.initMode) then s else
      s.(locked := s.locked[dev := true],
         world := Devices.DoBegin(cfg, s.world, dev, s.initMode, alloc, supply.delRes).0);
    assert LayersAgree(boards, s1) by {
      assert forall d | 0 <= d < |boards| && d != dev ::
        s1.world.slots[d] == s.world.slots[d] && s1.locked[d] == s.locked[d];
    }
    StepKeepsLayers(cfg, boards, s1, Op.Add(dev, supply));
  }

  /** Over every run after start-up in a mode the command line offers: a warm init mode means
      that the device begun last is locked, and the layers agree unless an end comes too early. */
  lemma AfterStartup(cfg: Config, boards: seq<Board>, mode: Mode, alloc: nat -> bool, supplies: seq<Supply>, ops: seq<Op>)
    requires |boards| == |supplies| && forall k | 0 <= k < |supplies| :: Supplied(cfg, supplies[k])
    requires mode != FastRecfgQuick && LegalRun(cfg, ops)
    ensures var s := Startup(cfg, boards, mode, alloc, supplies);
      && WarmMeansLocked(cfg, boards, s, ops)
      && (AgreeThroughout(cfg, boards, s, ops) <==> NoEarlyEnd(cfg, boards, s, ops))
  {
    var s := Startup(cfg, boards, mode, alloc, supplies);
    StartupEndsCold(cfg, boards, mode, alloc, supplies);
    BringUpAgrees(cfg, boards, mode, alloc, supplies, |boards|);
    InitModeIsOpenBegin(cfg, boards, s, ops);
    LayersAgreeIff(cfg, boards, s, ops);
  }

  // ---------- a warm restart ----------

  lemma {:induction false} DelsSucceed(t: seq<Client>, n: nat, dev: nat)
    requires n <= |t|
    ensures FirstFailure(DelDown(t, n, dev, OK)) == BF_SUCCESS
  {
    if n > 0 {
      DelsSucceed(t, n - 1, dev);
      var rest := DelDown(t, n - 1, dev, OK);
      if t[n - 1].callbacks.deviceDel {
        var e := DelCall(dev, t[n - 1].handle, BF_SUCCESS);
        assert DelDown(t, n, dev, OK) == [e] + rest && ([e] + rest)[1..] == rest;
      } else {
        assert DelDown(t, n, dev, OK) == rest;
      }
    }
  }

  /** Adding a device with no failure anywhere completes it and keeps the rest of its slot. */
  lemma CleanAdd(cfg: Config, w: World, dev: nat, family: int, profile: Profile, isSwModel: bool)
    requires dev < |w.slots| && ProfileFits(profile, cfg.numPipes) && !ProfileRefused(profile, cfg.numPipes)
    ensures var (w', status) := Devices.DoAdd(cfg, w, dev, family, Some(profile), isSwModel, true, OK, OK);
      && Done(w'.slots[dev])
      && status == (if Done(w.slots[dev]) then BF_ALREADY_EXISTS else BF_SUCCESS)
      && w'.slots[dev].value.inProgress == InProgress(w, dev)
      && w'.slots[dev].value.mode == if w.slots[dev].Some? then w.slots[dev].value.mode else Cold
  {
    var mode := if w.slots[dev].Some? then w.slots[dev].value.mode else Cold;
    AllSucceed(cfg.clients, 0, dev, mode, Some(CleanProfile(profile, cfg.numPipes)));
  }

  /** Begin, add and end a warm restart of a ready device, with no failure anywhere:
      the device ends up ready, unlocked, added and, in the driver, out of the
      restart. The last holds exactly when the restart was not begun cold. */
  lemma WarmRestartCompletes(cfg: Config, boards: seq<Board>, s: Daemon, dev: nat, mode: Mode, profile: Profile)
    requires Sized(boards, s) && dev < |boards| && s.ready[dev]
    requires ProfileFits(profile, cfg.numPipes) && !ProfileRefused(profile, cfg.numPipes)
    ensures var s1 := DoBegin(cfg, boards, s, dev, mode, true, OK).0;
      var s2 := DoAdd(cfg, boards, s1, dev, Supply(BF_SUCCESS, profile, true, OK, OK)).0;
      var (s3, status) := DoEnd(boards, s2, dev);
      && status == BF_SUCCESS && s3.ready[dev] && !s3.locked[dev] && s3.initMode == Cold
      && Done(s3.world.slots[dev])
      && (InProgress(s3.world, dev) <==> mode == Cold)
  {
    DelsSucceed(cfg.clients, |cfg.clients|, dev);
    var s1 := DoBegin(cfg, boards, s, dev, mode, true, OK).0;
    CleanAdd(cfg, s1.world, dev, boards[dev].family, profile, boards[dev].isSwModel);
  }

  // ---------- an end without an add ----------

  /** Beginning a restart of a ready device, other than in the quick mode, and ending it
      without adding the device again unlocks it while the driver is still in the restart. */
  lemma EndWithoutAdd(cfg: Config, boards: seq<Board>, s: Daemon, dev: nat, mode: Mode)
    requires Sized(boards, s) && dev < |boards| && s.ready[dev] && mode != FastRecfgQuick
    ensures var s1 := DoBegin(cfg, boards, s, dev, mode, true, OK).0;
      && EndsTooEarly(boards, s1, Op.End(dev))
      && InProgress(DoEnd(boards, s1, dev).0.world, dev) && !DoEnd(boards, s1, dev).0.locked[dev]
  {
    DelsSucceed(cfg.clients, |cfg.clients|, dev);
  }

  /** Start-up of one device, then those two calls: the layers no longer agree. */
  lemma EarlyEndRun(cfg: Config, board: Board) returns (s: Daemon, ops: seq<Op>)
    requires board.configured
    ensures var supply := Supply(BF_SUCCESS, [], true, OK, OK);
      Supplied(cfg, supply) && s == Startup(cfg, [board], Cold, _ => true, [supply])
    ensures ops == [Op.Begin(0, FastRecfg, true, OK), Op.End(0)] && LegalRun(cfg, ops)
    ensures !LayersAgree([board], Run(cfg, [board], s, ops))
  {
    var supply := Supply(BF_SUCCESS, [], true, OK, OK);
    s := Startup(cfg, [board], Cold, _ => true, [supply]);
    ReadyAfterStartup(cfg, board, _ => true, supply);
    ops := [Op.Begin(0, FastRecfg, true, OK), Op.End(0)];
    EndWithoutAdd(cfg, [board], s, 0, FastRecfg);
    assert ops[..1] == [ops[0]] && [ops[0]][..0] == [];
    assert Run(cfg, [board], s, []) == s;
    assert Run(cfg, [board], s, [ops[0]]) == DoBegin(cfg, [board], s, 0, FastRecfg, true, OK).0;
    assert Run(cfg, [board], s, ops) == DoEnd([board], Run(cfg, [board], s, [ops[0]]), 0).0;
  }

  lemma ReadyAfterStartup(cfg: Config, board: Board, alloc: nat -> bool, supply: Supply)
    requires board.configured && supply == Supply(BF_SUCCESS, [], true, OK, OK)
    ensures Supplied(cfg, supply) && Startup(cfg, [board], Cold, alloc, [supply]).ready == [true]
  {
    var start := BringUpAll(cfg, [board], Cold, alloc, [supply], 0);
    CleanAdd(cfg, start.world, 0, board.family, [], board.isSwModel);
  }
}

/**
 What the daemon's calls and its start-up come to for each device, told from the
 configuration, what the environment supplies and the answers of the clients.
 */
module DaemonOutcomes {
  import opened Status
  import opened PipeScope
  import opened Devices
  import opened DeviceOrder
  import opened DeviceOutcomes
  import opened Switchd

  // ---------- start-up ----------

  /** In this mode the start-up begins a warm restart of a configured device. */
  predicate Warm(mode: Mode)
  {
    mode == FastRecfg || mode == Hitless
  }

  /** The add of a device that is not there yet gets as far as the clients. */
  ghost predicate ReachesClients(cfg: Config, memory: bool, supply: Supply)
    requires Supplied(cfg, supply)
  {
    supply.profileStatus == BF_SUCCESS && memory && !ProfileRefused(supply.profile, cfg.numPipes)
  }

  /** Device d after start-up. A device that is not configured is left alone. A configured one
      is locked exactly in a warm mode. It is ready and complete exactly when its profile is
      built, there is memory, the profile is not refused and no client refuses. It is in the
      restart, in that mode, exactly when there was memory to begin it and no client has
      refused the add. */
  ghost predicate BroughtUp(cfg: Config, board: Board, mode: Mode, alloc: bool, supply: Supply, s: Daemon, d: nat)
    requires Supplied(cfg, supply) && d < |s.world.slots| && d < |s.locked| && d < |s.ready|
  {
    var slot := s.world.slots[d];
    if !board.configured then !s.locked[d] && !s.ready[d] && slot == None
    else
      var begun := Warm(mode) && alloc;
      var reaches := ReachesClients(cfg, begun || supply.alloc, supply);
      var refused := reaches && !NoneRefuses(cfg.clients, supply.addRes);
      && (s.locked[d] <==> Warm(mode))
      && (s.ready[d] <==> reaches && !refused)
      && (Done(slot) <==> s.ready[d])
      && (slot.Some? <==> !refused && (begun || (supply.profileStatus == BF_SUCCESS && supply.alloc)))
      && (InProgress(s.world, d) <==> begun && !refused)
      && (slot.Some? ==> slot.value.mode == if begun then mode else Cold)
      && (Done(slot) ==> slot.value.devId == d && slot.value.family == board.family
                         && slot.value.isSwModel == board.isSwModel)
  }

  /** Device d has not been touched yet. */
  ghost predicate Untouched(s: Daemon, d: nat)
    requires d < |s.world.slots| && d < |s.locked| && d < |s.ready|
  {
    !s.locked[d] && !s.ready[d] && s.world.slots[d] == None
  }

  ghost predicate OnlyDevice(boards: seq<Board>, s: Daemon, s': Daemon, dev: nat)
    requires Sized(boards, s) && Sized(boards, s')
  {
    forall d | 0 <= d < |boards| && d != dev ::
      s'.world.slots[d] == s.world.slots[d] && s'.locked[d] == s.locked[d] && s'.ready[d] == s.ready[d]
  }

  /** The warm-init begin of start-up, on an untouched device. */
  lemma BegunAtStart(cfg: Config, boards: seq<Board>, s: Daemon, dev: nat, alloc: bool, delRes: Answers)
    requires Sized(boards, s) && dev < |boards| && Untouched(s, dev) && Warm(s.initMode)
    ensures var world := Devices.DoBegin(cfg, s.world, dev, s.initMode, alloc, delRes).0;
      && OthersKept(s.world, world, dev)
      && world.slots[dev] == if alloc then Some(Asic(dev, 0, false, 0, s.initMode, true, false)) else None
  {
    BeginOutcome(cfg, s.world, dev, s.initMode, alloc, delRes);
  }

  /** Start-up of one untouched device. */
  lemma BringUpOutcome(cfg: Config, boards: seq<Board>, s: Daemon, dev: nat, alloc: bool, supply: Supply)
    requires Sized(boards, s) && Supplied(cfg, supply) && dev < |boards| && boards[dev].configured && Untouched(s, dev)
    ensures var s' := BringUp(cfg, boards, s, dev, alloc, supply);
      && BroughtUp(cfg, boards[dev], s.initMode, alloc, supply, s', dev)
      && OnlyDevice(boards, s, s', dev) && s'.initMode == s.initMode
  {
    var s1 := s;
    if Warm(s.initMode) {
      BegunAtStart(cfg, boards, s, dev, alloc, supply.delRes);
      s1 := s.(locked := s.locked[dev := true],
               world := Devices.DoBegin(cfg, s.world, dev, s.initMode, alloc, supply.delRes).0);
    }
    AddOutcome(cfg, s1.world, dev, boards[dev].family, Some(supply.profile), boards[dev].isSwModel,
               supply.alloc, supply.addRes, supply.delRes);
  }

  /** The first n devices are brought up and the others untouched. */
  ghost predicate UpTo(cfg: Config, boards: seq<Board>, mode: Mode, alloc: nat -> bool, supplies: seq<Supply>,
                       s: Daemon, n: nat)
    requires |boards| == |supplies| && Sized(boards, s) && forall k | 0 <= k < |supplies| :: Supplied(cfg, supplies[k])
  {
    forall d: nat | d < |boards| ::
      if d < n then BroughtUp(cfg, boards[d], mode, alloc(d), supplies[d], s, d) else Untouched(s, d)
  }

  lemma NextUp(cfg: Config, boards: seq<Board>, mode: Mode, alloc: nat -> bool, supplies: seq<Supply>,
               s: Daemon, s': Daemon, n: nat)
    requires n < |boards| == |supplies| && Sized(boards, s) && Sized(boards, s')
    requires forall k | 0 <= k < |supplies| :: Supplied(cfg, supplies[k])
    requires UpTo(cfg, boards, mode, alloc, supplies, s, n) && OnlyDevice(boards, s, s', n)
    requires BroughtUp(cfg, boards[n], mode, alloc(n), supplies[n], s', n)
    ensures UpTo(cfg, boards, mode, alloc, supplies, s', n + 1)
  {
    forall d: nat | d < |boards|
      ensures if d < n + 1 then BroughtUp(cfg, boards[d], mode, alloc(d), supplies[d], s', d) else Untouched(s', d)
    {
      if d != n {
        SameDevice(cfg, boards[d], mode, alloc(d), supplies[d], s, s', d);
      }
    }
  }

  lemma SameDevice(cfg: Config, board: Board, mode: Mode, alloc: bool, supply: Supply, s: Daemon, s': Daemon, d: nat)
    requires Supplied(cfg, supply) && d < |s.world.slots| && d < |s.locked| && d < |s.ready|
    requires d < |s'.world.slots| && d < |s'.locked| && d < |s'.ready|
    requires s'.world.slots[d] == s.world.slots[d] && s'.locked[d] == s.locked[d] && s'.ready[d] == s.ready[d]
    ensures BroughtUp(cfg, board, mode, alloc, supply, s, d) ==> BroughtUp(cfg, board, mode, alloc, supply, s', d)
    ensures Untouched(s, d) ==> Untouched(s', d)
  {
  }

  lemma {:induction false} BringUpAllOutcome(cfg: Config, boards: seq<Board>, mode: Mode, alloc: nat -> bool,
                                             supplies: seq<Supply>, n: nat)
    requires n <= |boards| == |supplies| && forall k | 0 <= k < |supplies| :: Supplied(cfg, supplies[k])
    ensures var s := BringUpAll(cfg, boards, mode, alloc, supplies, n);
      s.initMode == mode && UpTo(cfg, boards, mode, alloc, supplies, s, n)
  {
    if n > 0 {
      BringUpAllOutcome(cfg, boards, mode, alloc, supplies, n - 1);
      var s := BringUpAll(cfg, boards, mode, alloc, supplies, n - 1);
      var s' := BringUpAll(cfg, boards, mode, alloc, supplies, n);
      assert Untouched(s, n - 1);
      if boards[n - 1].configured {
        BringUpOutcome(cfg, boards, s, n - 1, alloc(n - 1), supplies[n - 1]);
      }
      NextUp(cfg, boards, mode, alloc, supplies, s, s', n - 1);
    }
  }

  /** Start-up brings up every device, each by its own board, supply and memory alone. */
  lemma StartupOutcome(cfg: Config, boards: seq<Board>, mode: Mode, alloc: nat -> bool, supplies: seq<Supply>)
    requires |boards| == |supplies| && forall k | 0 <= k < |supplies| :: Supplied(cfg, supplies[k])
    ensures var s := Startup(cfg, boards, mode, alloc, supplies);
      && s.initMode == (if Warm(mode) then Cold else mode)
      && forall d: nat | d < |boards| :: BroughtUp(cfg, boards[d], mode, alloc(d), supplies[d], s, d)
  {
    BringUpAllOutcome(cfg, boards, mode, alloc, supplies, |boards|);
    var s := BringUpAll(cfg, boards, mode, alloc, supplies, |boards|);
    var s' := Startup(cfg, boards, mode, alloc, supplies);
    forall d: nat | d < |boards|
      ensures BroughtUp(cfg, boards[d], mode, alloc(d), supplies[d], s', d)
    {
      SameDevice(cfg, boards[d], mode, alloc(d), supplies[d], s, s', d);
    }
  }

  /** In particular, with memory and no failure anywhere: after a warm start every configured
      device is locked, complete and in the restart, in that mode; after any other start none
      is locked and none in a restart. */
  lemma CleanStartup(cfg: Config, boards: seq<Board>, mode: Mode, supplies: seq<Supply>)
    requires |boards| == |supplies| && forall k | 0 <= k < |supplies| :: Supplied(cfg, supplies[k])
    requires forall k | 0 <= k < |supplies| ::
      ReachesClients(cfg, supplies[k].alloc, supplies[k]) && NoneRefuses(cfg.clients, supplies[k].addRes)
    ensures var s := Startup(cfg, boards, mode, _ => true, supplies);
      forall d: nat | d < |boards| && boards[d].configured ::
        && s.ready[d] && Done(s.world.slots[d])
        && (s.locked[d] <==> mode == FastRecfg || mode == Hitless)
        && (InProgress(s.world, d) <==> mode == FastRecfg || mode == Hitless)
        && s.world.slots[d].value.mode == if mode == FastRecfg || mode == Hitless then mode else Cold
  {
    var alloc: nat -> bool := _ => true;
    StartupOutcome(cfg, boards, mode, alloc, supplies);
    var s := Startup(cfg, boards, mode, alloc, supplies);
    forall d: nat | d < |boards| && boards[d].configured
      ensures s.ready[d] && Done(s.world.slots[d])
      ensures s.locked[d] <==> mode == FastRecfg || mode == Hitless
      ensures InProgress(s.world, d) <==> mode == FastRecfg || mode == Hitless
      ensures s.world.slots[d].value.mode == if mode == FastRecfg || mode == Hitless then mode else Cold
    {
      assert BroughtUp(cfg, boards[d], mode, alloc(d), supplies[d], s, d);
      assert ReachesClients(cfg, supplies[d].alloc, supplies[d]);
    }
  }

  // ---------- the calls ----------

  /** Beginning a restart of a ready device always reports success, takes over the mode and
      locks the device; whether the driver is then in the restart depends on memory and on
      the clients that are told of a removal. */
  lemma BeginCallOutcome(cfg: Config, boards: seq<Board>, s: Daemon, dev: nat, mode: Mode, alloc: bool, delRes: Answers)
    requires Sized(boards, s)
    ensures var (s', status) := Switchd.DoBegin(cfg, boards, s, dev, mode, alloc, delRes);
      && OnlyDevice(boards, s, s', dev) && s'.ready == s.ready
      && (dev >= |boards| ==> status == BF_INVALID_ARG && s' == s)
      && (dev < |boards| && !s.ready[dev] ==> status == BF_NOT_READY && s' == s)
      && (dev < |boards| && s.ready[dev] ==>
            var slot, slot' := s.world.slots[dev], s'.world.slots[dev];
            && status == BF_SUCCESS && s'.initMode == mode && s'.locked[dev]
            && (mode != FastRecfgQuick ==>
                  slot' == if RemovalFails(cfg, slot, delRes) || !alloc then None
                           else Some(Asic(dev, 0, false, 0, mode, true, false)))
            && (mode == FastRecfgQuick ==>
                  slot' == if slot.None? then None else Some(slot.value.(mode := mode, inProgress := true))))
  {
    if dev < |boards| {
      BeginOutcome(cfg, s.world, dev, mode, alloc, delRes);
    }
  }

  /** Adding a device makes it ready exactly when the driver's add succeeds, and keeps lock and
      mode; a profile that is not built stops it only for a configured device. */
  lemma AddCallOutcome(cfg: Config, boards: seq<Board>, s: Daemon, dev: nat, supply: Supply)
    requires Sized(boards, s) && Supplied(cfg, supply)
    ensures var (s', status) := Switchd.DoAdd(cfg, boards, s, dev, supply);
      && OnlyDevice(boards, s, s', dev) && s'.initMode == s.initMode && s'.locked == s.locked
      && (dev >= |boards| ==> status == BF_INVALID_ARG && s' == s)
      && (dev < |boards| && boards[dev].configured && supply.profileStatus != BF_SUCCESS ==>
            status == supply.profileStatus && s' == s)
      && (dev < |boards| && !(boards[dev].configured && supply.profileStatus != BF_SUCCESS) ==>
            var slot, slot' := s.world.slots[dev], s'.world.slots[dev];
            var reaches := Attempted(cfg, s.world, dev, Some(supply.profile), supply.alloc);
            && (status == BF_SUCCESS <==> reaches && NoneRefuses(cfg.clients, supply.addRes))
            && (s'.ready[dev] <==> s.ready[dev] || status == BF_SUCCESS)
            && (status == BF_SUCCESS ==>
                  Recorded(slot, slot', dev, boards[dev].family, boards[dev].isSwModel, true))
            && (Done(slot) ==> status == BF_ALREADY_EXISTS && slot' == slot)
            && (reaches && status != BF_SUCCESS ==> slot' == None)
            && forall i: nat | reaches && FirstToRefuse(cfg.clients, supply.addRes, i) :: status == supply.addRes(i))
  {
    if dev < |boards| {
      AddOutcome(cfg, s.world, dev, boards[dev].family, Some(supply.profile), boards[dev].isSwModel,
                 supply.alloc, supply.addRes, supply.delRes);
    }
  }

  /** Ending a restart sets the mode back and unlocks the device; only of a locked device does
      it reach the driver, where it ends the restart of a complete device that is not cold. */
  lemma EndCallOutcome(boards: seq<Board>, s: Daemon, dev: nat)
    requires Sized(boards, s)
    ensures var (s', status) := Switchd.DoEnd(boards, s, dev);
      && OnlyDevice(boards, s, s', dev) && s'.ready == s.ready && s'.world.trace == s.world.trace
      && (dev >= |boards| ==> status == BF_SUCCESS && s' == s)
      && (dev < |boards| ==>
            var slot, slot' := s.world.slots[dev], s'.world.slots[dev];
            && s'.initMode == Cold && !s'.locked[dev]
            && (!s.locked[dev] ==> status == BF_SUCCESS && slot' == slot)
            && (s.locked[dev] && !Done(slot) ==>
                  && slot' == slot
                  && status == if boards[dev].isVirtual || boards[dev].isSwModel then BF_OBJECT_NOT_FOUND else BF_SUCCESS)
            && (s.locked[dev] && Done(slot) ==>
                  && status == BF_SUCCESS && Done(slot')
                  && slot'.value.inProgress == (slot.value.inProgress && slot.value.mode == Cold)
                  && slot'.value.mode == slot.value.mode))
  {
    if dev < |boards| {
      EndOutcome(s.world, dev);
    }
  }
}

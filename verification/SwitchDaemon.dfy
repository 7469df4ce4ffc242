/**
 The daemon's functions as bf_switchd/bf_switchd.c has them, over the device
 manager, each proved to do a step of the daemon's state machine.
 */
module SwitchDaemon {
  import opened Status
  import opened Devices
  import opened Switchd
  import DeviceManager

  class Context {
    const driver: DeviceManager.Manager
    const boards: seq<Board>
    var initMode: Mode
    const locked: array<bool>
    const ready: array<bool>

    ghost predicate Valid()
      reads this, locked, ready, driver, driver.slots, driver.db, driver.db.hdlInfo, driver.db.clientDb
    {
      && driver.Valid() && locked != ready
      && driver.slots.Length == locked.Length == ready.Length == |boards|
    }

    ghost function Abs(): (s: Daemon)
      reads this, locked, ready, driver, driver.slots
    {
      Daemon(driver.Abs(), initMode, locked[..], ready[..])
    }

    constructor (driver: DeviceManager.Manager, boards: seq<Board>, mode: Mode)
      requires driver.Valid() && driver.Abs() == Start(|boards|)
      ensures Valid() && this.driver == driver && this.boards == boards && initMode == mode
      ensures fresh(locked) && fresh(ready)
      ensures (forall d | 0 <= d < locked.Length :: !locked[d]) && (forall d | 0 <= d < ready.Length :: !ready[d])
    {
      assert driver.slots.Length == |driver.Abs().slots| == |boards|;
      this.driver := driver;
      this.boards := boards;
      initMode := mode;
      locked := new bool[|boards|](_ => false);
      ready := new bool[|boards|](_ => false);
    }

    method WarmInitBegin(dev: nat, mode: Mode, alloc: bool, delRes: Answers) returns (status: Code)
      requires Valid()
      modifies this`initMode, locked, driver`trace, driver.slots
      ensures Valid()
      ensures (Abs(), status) == Switchd.DoBegin(driver.Cfg(), boards, old(Abs()), dev, mode, alloc, delRes)
    {
      if dev >= |boards| {
        return BF_INVALID_ARG;
      }
      if !ready[dev] {
        return BF_NOT_READY;
      }
      initMode := mode;
      locked[dev] := true;
      var _ := driver.WarmInitBegin(dev, mode, alloc, delRes);
      assert locked[..] == old(locked[..])[dev := true];
      assert ready[..] == old(ready[..]);
      status := BF_SUCCESS;
    }

    method DeviceAdd(dev: nat, supply: Supply) returns (status: Code)
      requires Valid() && Supplied(driver.Cfg(), supply)
      modifies ready, driver`trace, driver.slots
      ensures Valid()
      ensures (Abs(), status) == Switchd.DoAdd(driver.Cfg(), boards, old(Abs()), dev, supply)
    {
      if dev >= |boards| {
        return BF_INVALID_ARG;
      }
      if boards[dev].configured && supply.profileStatus != BF_SUCCESS {
        return supply.profileStatus;
      }
      status := driver.DeviceAdd(dev, boards[dev].family, Some(supply.profile), boards[dev].isSwModel,
                                 supply.alloc, supply.addRes, supply.delRes);
      assert locked[..] == old(locked[..]);
      if status != BF_SUCCESS {
        assert ready[..] == old(ready[..]);
        return;
      }
      ready[dev] := true;
      assert ready[..] == old(ready[..])[dev := true];
    }

    method WarmInitEnd(dev: nat) returns (status: Code)
      requires Valid()
      modifies this`initMode, locked, driver.slots
      ensures Valid()
      ensures (Abs(), status) == Switchd.DoEnd(boards, old(Abs()), dev)
    {
      status := BF_SUCCESS;
      if dev >= |boards| {
        return;
      }
      if locked[dev] {
        status := driver.WarmInitEnd(dev);
        if !boards[dev].isVirtual && !boards[dev].isSwModel {
          status := BF_SUCCESS; // bf_switchd_warm_init_port_bring_up always succeeds
        }
        locked[dev] := false;
        assert locked[..] == old(locked[..])[dev := false];
      }
      assert ready[..] == old(ready[..]);
      if initMode == FastRecfg || initMode == FastRecfgQuick || initMode == Hitless {
        initMode := Cold;
      }
    }

    /** The start-up loop over the devices. */
    method Boot(alloc: nat -> bool, supplies: seq<Supply>)
      requires Valid() && driver.Abs() == Start(|boards|)
      requires (forall d | 0 <= d < locked.Length :: !locked[d]) && (forall d | 0 <= d < ready.Length :: !ready[d])
      requires |supplies| == |boards| && forall k | 0 <= k < |supplies| :: Supplied(driver.Cfg(), supplies[k])
      modifies this`initMode, locked, ready, driver`trace, driver.slots
      ensures Valid() && driver.Cfg() == old(driver.Cfg())
      ensures Abs() == Startup(driver.Cfg(), boards, old(initMode), alloc, supplies)
    {
      ghost var cfg := driver.Cfg();
      assert Abs() == BringUpAll(cfg, boards, initMode, alloc, supplies, 0);
      for dev := 0 to |boards|
        invariant Valid() && driver.Cfg() == cfg && initMode == old(initMode)
        invariant Abs() == BringUpAll(cfg, boards, old(initMode), alloc, supplies, dev)
      {
        if boards[dev].configured {
          BootDevice(dev, alloc(dev), supplies[dev]);
        }
      }
      if initMode == FastRecfg || initMode == Hitless {
        initMode := Cold;
      }
    }

    method BootDevice(dev: nat, alloc: bool, supply: Supply)
      requires Valid() && dev < |boards| && Supplied(driver.Cfg(), supply)
      modifies locked, ready, driver`trace, driver.slots
      ensures Valid() && driver.Cfg() == old(driver.Cfg())
      ensures Abs() == BringUp(driver.Cfg(), boards, old(Abs()), dev, alloc, supply)
    {
      if initMode == FastRecfg || initMode == Hitless {
        locked[dev] := true;
        var _ := driver.WarmInitBegin(dev, initMode, alloc, supply.delRes);
        assert locked[..] == old(locked[..])[dev := true];
        assert ready[..] == old(ready[..]);
      }
      var _ := DeviceAdd(dev, supply);
    }
  }
}

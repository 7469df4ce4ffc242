/**
 src/dvm/dvm.c and the notification loops of src/dvm/dvm_clients.c over the
 registry's array, each method proved to do a step of the device state machine.
 */
module DeviceManager {
  import opened Status
  import opened PipeScope
  import opened Devices
  import Registry
  import ClientRegistry

  class Manager {
    const db: ClientRegistry.Db
    const numPipes: nat
    const slots: array<Slot>

    /** The callbacks made so far. */
    var trace: seq<Event>

    ghost predicate Valid()
      reads this, db, db.hdlInfo, db.clientDb
    {
      db.Valid()
    }

    ghost function Cfg(): (cfg: Config)
      reads this, db
    {
      Config(db.table, numPipes)
    }

    ghost function Abs(): (w: World)
      reads this, slots
    {
      World(slots[..], trace)
    }

    constructor (db: ClientRegistry.Db, numPipes: nat, devices: nat)
      requires db.Valid()
      ensures Valid() && this.db == db && this.numPipes == numPipes && Abs() == Start(devices)
    {
      this.db := db;
      this.numPipes := numPipes;
      slots := new Slot[devices](_ => None);
      trace := [];
      new;
      assert slots[..] == Start(devices).slots;
    }

    /** Tells the clients in table order until one fails. */
    method NotifyAdd(dev: nat, mode: Mode, profile: Option<Profile>, res: Answers) returns (status: Code)
      requires Valid()
      modifies this`trace
      ensures Valid()
      ensures var (events, st) := AddFrom(db.table, 0, dev, mode, profile, res);
        trace == old(trace) + events && status == st
    {
      ghost var t := db.table;
      ghost var all := AddFrom(t, 0, dev, mode, profile, res);
      ghost var told: seq<Event> := [];
      var id := 0;
      ghost var k: nat := 0;
      while id < Registry.MAX_CLIENTS
        invariant 0 <= id <= Registry.MAX_CLIENTS && Valid() && db.table == t
        invariant k == if id < |t| then id else |t|
        invariant trace == old(trace) + told
        invariant all.0 == told + AddFrom(t, k, dev, mode, profile, res).0
        invariant all.1 == AddFrom(t, k, dev, mode, profile, res).1
      {
        assert db.clientDb[..][id] == db.clientDb[id];
        var client := db.clientDb[id];
        if client.valid && client.callbacks.deviceAdd {
          status := res(id);
          var e := AddCall(dev, client.handle, mode, profile, status);
          trace := trace + [e];
          if status != BF_SUCCESS {
            return;
          }
          Regroup(told, e, AddFrom(t, k + 1, dev, mode, profile, res).0);
          told := told + [e];
        }
        id := id + 1;
        k := if id < |t| then id else |t|;
      }
      status := BF_SUCCESS;
    }

    /** Tells all clients in reverse table order; the first failure is returned. */
    method NotifyDel(dev: nat, res: Answers) returns (status: Code)
      requires Valid()
      modifies this`trace
      ensures Valid()
      ensures var events := DelDown(db.table, |db.table|, dev, res);
        trace == old(trace) + events && status == FirstFailure(events)
    {
      ghost var t := db.table;
      ghost var all := DelDown(t, |t|, dev, res);
      ghost var told: seq<Event> := [];
      status := BF_SUCCESS;
      var id := Registry.MAX_CLIENTS;
      ghost var k: nat := |t|;
      while id > 0
        invariant 0 <= id <= Registry.MAX_CLIENTS && Valid() && db.table == t
        invariant k == if id < |t| then id else |t|
        invariant trace == old(trace) + told
        invariant all == told + DelDown(t, k, dev, res)
        invariant status == FirstFailure(told)
      {
        id := id - 1;
        assert db.clientDb[..][id] == db.clientDb[id];
        var client := db.clientDb[id];
        if client.valid && client.callbacks.deviceDel {
          var e := DelCall(dev, client.handle, res(id));
          FirstFailureAppend(told, e);
          Regroup(told, e, DelDown(t, id, dev, res));
          trace := trace + [e];
          told := told + [e];
          if e.status != BF_SUCCESS && status == BF_SUCCESS {
            status := e.status;
          }
        } else if id < |t| {
          assert [] + DelDown(t, id, dev, res) == DelDown(t, id, dev, res);
        }
        k := if id < |t| then id else |t|;
      }
      assert told == all;
    }

    method DeviceAdd(dev: nat, family: int, profile: Option<Profile>, isSwModel: bool,
                     alloc: bool, addRes: Answers, delRes: Answers) returns (status: Code)
      requires Valid() && dev < slots.Length && (profile.Some? ==> ProfileFits(profile.value, numPipes))
      modifies this`trace, slots
      ensures Valid()
      ensures (Abs(), status) == DoAdd(Cfg(), old(Abs()), dev, family, profile, isSwModel, alloc, addRes, delRes)
    {
      if slots[dev].Some? && slots[dev].value.addDone {
        return BF_ALREADY_EXISTS;
      }
      var warmInitMode := if slots[dev].Some? then slots[dev].value.mode else Cold;
      if slots[dev].None? {
        if !alloc {
          return BF_NO_SYS_RESOURCES;
        }
        slots[dev] := Some(ZEROED);
      }
      slots[dev] := Some(slots[dev].value.(devId := dev, family := family, isSwModel := isSwModel, numPipes := 1));
      var local: Option<Profile> := None;
      if profile.Some? {
        var copy, badPipe := SanitizeProfile(profile.value, numPipes);
        if badPipe {
          assert slots[..] == old(slots[..])[dev := slots[dev]];
          return BF_INVALID_ARG;
        }
        local := Some(copy);
      }
      status := NotifyAdd(dev, warmInitMode, local, addRes);
      if status != BF_SUCCESS {
        var _ := NotifyDel(dev, delRes);
        slots[dev] := None;
        assert slots[..] == old(slots[..])[dev := None];
        return;
      }
      slots[dev] := Some(slots[dev].value.(addDone := true));
      assert slots[..] == old(slots[..])[dev := slots[dev]];
    }

    method DeviceRemove(dev: nat, delRes: Answers) returns (status: Code)
      requires Valid() && dev < slots.Length
      modifies this`trace, slots
      ensures Valid()
      ensures (Abs(), status) == DoRemove(Cfg(), old(Abs()), dev, delRes)
    {
      if slots[dev].None? {
        return BF_OBJECT_NOT_FOUND;
      }
      status := NotifyDel(dev, delRes);
      slots[dev] := None;
    }

    method WarmInitBegin(dev: nat, mode: Mode, alloc: bool, delRes: Answers) returns (status: Code)
      requires Valid() && dev < slots.Length
      modifies this`trace, slots
      ensures Valid()
      ensures (Abs(), status) == DoBegin(Cfg(), old(Abs()), dev, mode, alloc, delRes)
    {
      status := BF_SUCCESS;
      if mode != FastRecfgQuick {
        if slots[dev].Some? && slots[dev].value.addDone {
          status := DeviceRemove(dev, delRes);
          if status != BF_SUCCESS {
            return;
          }
        }
        if !alloc {
          slots[dev] := None;
          assert slots[..] == old(slots[..])[dev := None] == old(slots[..])[dev := None][dev := None];
          return BF_NO_SYS_RESOURCES;
        }
        slots[dev] := Some(ZEROED.(devId := dev, addDone := false));
      } else if slots[dev].None? {
        return BF_INVALID_ARG;
      }
      slots[dev] := Some(slots[dev].value.(mode := mode));
      slots[dev] := Some(slots[dev].value.(inProgress := true));
      assert slots[..] == old(slots[..])[dev := slots[dev]] == old(slots[..])[dev := None][dev := slots[dev]];
    }

    method WarmInitEnd(dev: nat) returns (status: Code)
      requires Valid() && dev < slots.Length
      modifies slots
      ensures Valid()
      ensures (Abs(), status) == DoEnd(old(Abs()), dev)
    {
      if slots[dev].None? || !slots[dev].value.addDone {
        return BF_OBJECT_NOT_FOUND;
      }
      if slots[dev].value.mode == Cold {
        return BF_SUCCESS;
      }
      slots[dev] := Some(slots[dev].value.(inProgress := false));
      status := BF_SUCCESS;
    }
  }

  lemma {:induction false} FirstFailureAppend(events: seq<Event>, e: Event)
    ensures FirstFailure(events + [e]) == if FirstFailure(events) != BF_SUCCESS then FirstFailure(events) else e.status
  {
    if events == [] {
      assert events + [e] == [e];
    } else {
      FirstFailureAppend(events[1..], e);
      assert (events + [e])[1..] == events[1..] + [e];
    }
  }
}

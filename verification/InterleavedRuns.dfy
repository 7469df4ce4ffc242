/**
 Registry calls and device operations in one run, in any order: clients come and go
 while devices are added and removed. What a handle has been told of a device, and
 exactly which calls make that wrong.
 */
module InterleavedRuns {
  import opened Status
  import opened Clients
  import opened PipeScope
  import opened Devices
  import opened DeviceRuns
  import Registry

  datatype Driver = Driver(reg: Registry.State, world: World)

  datatype Call = Reg(regOp: Registry.Op) | Dev(devOp: Op)

  /** Device operations see the client table as it is when they are made. */
  ghost function Cfg(s: Driver, numPipes: nat): (cfg: Config)
  {
    Config(s.reg.table, numPipes)
  }

  ghost predicate LegalCall(numPipes: nat, s: Driver, call: Call)
  {
    match call
    case Reg(op) => Registry.Legal(s.reg, op)
    case Dev(op) => Legal(Cfg(s, numPipes), s.world, op)
  }

  ghost function Make(numPipes: nat, s: Driver, call: Call): (s': Driver)
    requires LegalCall(numPipes, s, call)
    ensures |s'.world.slots| == |s.world.slots|
  {
    match call
    case Reg(op) => s.(reg := Registry.Step(s.reg, op))
    case Dev(op) => s.(world := Step(Cfg(s, numPipes), s.world, op).0)
  }

  /** The driver after the calls; one that is not legal has no effect. */
  ghost function After(numPipes: nat, devices: nat, calls: seq<Call>): (s: Driver)
    ensures |s.world.slots| == devices
  {
    if calls == [] then Driver(Registry.Init(), Start(devices))
    else
      var s := After(numPipes, devices, calls[..|calls| - 1]);
      if LegalCall(numPipes, s, calls[|calls| - 1]) then Make(numPipes, s, calls[|calls| - 1]) else s
  }

  ghost predicate LegalCalls(numPipes: nat, devices: nat, calls: seq<Call>)
  {
    calls == [] ||
    (&& LegalCalls(numPipes, devices, calls[..|calls| - 1])
     && LegalCall(numPipes, After(numPipes, devices, calls[..|calls| - 1]), calls[|calls| - 1]))
  }

  // ---------- what a handle is to know ----------

  /** A client of handle h is listed that wants device_add. */
  ghost predicate Wants(t: seq<Client>, h: int)
  {
    exists k :: 0 <= k < |t| && t[k].handle == h && t[k].callbacks.deviceAdd
  }

  /** Handle h was never told twice of device d, and was told of it last exactly while the
      device is completely added and a client of that handle wants to know. */
  ghost predicate Informed(s: Driver, d: nat, h: int)
    requires d < |s.world.slots|
  {
    && NeverToldTwice(s.world.trace, d, h)
    && (if Done(s.world.slots[d]) && Wants(s.reg.table, h)
        then Told(s.world.trace, d, h) && Last(s.world.trace, d, h).value.status == BF_SUCCESS
        else !Told(s.world.trace, d, h))
  }

  /** The callbacks of a new client that wants device_add are registered while d is added. */
  ghost predicate ComesLate(s: Driver, call: Call, d: nat, h: int)
    requires d < |s.world.slots|
  {
    && call.Reg? && call.regOp.RegisterCallbacks? && call.regOp.handle == h && call.regOp.callbacks.Some?
    && call.regOp.callbacks.value.deviceAdd && !Registered(s.reg.table, h) && Done(s.world.slots[d])
  }

  /** A client that wanted device_add is deregistered while d is added. */
  ghost predicate LeavesEarly(s: Driver, call: Call, d: nat, h: int)
    requires d < |s.world.slots|
  {
    call.Reg? && call.regOp == Registry.Deregister(h) && Wants(s.reg.table, h) && Done(s.world.slots[d])
  }

  ghost predicate CarelessCall(s: Driver, call: Call)
    requires call.Reg? ==> Registry.Legal(s.reg, call.regOp)
  {
    call.Reg? && Registry.Careless(s.reg, call.regOp)
  }

  /** The clients of handle h are paired. */
  ghost predicate PairedTable(t: seq<Client>, h: int)
  {
    forall k | 0 <= k < |t| && t[k].handle == h :: Paired(t[k])
  }

  /** A registration of callbacks for handle h has both or no device_add. */
  ghost predicate PairedCall(call: Call, h: int)
  {
    call.Reg? && call.regOp.RegisterCallbacks? && call.regOp.handle == h && call.regOp.callbacks.Some? ==>
      call.regOp.callbacks.value.deviceAdd ==> call.regOp.callbacks.value.deviceDel
  }

  // ---------- device operations ----------

  /** A handle that is not listed hears nothing. */
  lemma UnlistedHearsNothing(cfg: Config, w: World, op: Op, d: nat, h: int)
    requires Legal(cfg, w, op) && !Registered(cfg.clients, h)
    ensures var w' := Step(cfg, w, op).0;
      Last(w'.trace, d, h) == Last(w.trace, d, h) && (NeverToldTwice(w'.trace, d, h) <==> NeverToldTwice(w.trace, d, h))
  {
    var t := cfg.clients;
    match op
    case End(_) =>
    case Remove(dev, delRes) => DelDownOthers(t, |t|, dev, delRes, w.trace, d, h);
    case Begin(dev, mode, alloc, delRes) => DelDownOthers(t, |t|, dev, delRes, w.trace, d, h);
    case Add(dev, family, profile, isSwModel, alloc, addRes, delRes) =>
      AddUnlisted(cfg, w, op, d, h);
  }

  lemma AddUnlisted(cfg: Config, w: World, op: Op, d: nat, h: int)
    requires Legal(cfg, w, op) && op.Add? && !Registered(cfg.clients, h)
    ensures var w' := Step(cfg, w, op).0;
      Last(w'.trace, d, h) == Last(w.trace, d, h) && (NeverToldTwice(w'.trace, d, h) <==> NeverToldTwice(w.trace, d, h))
  {
    var t, slot := cfg.clients, w.slots[op.dev];
    if !Done(slot) && !(op.profile.Some? && ProfileRefused(op.profile.value, cfg.numPipes)) {
      var mode := if slot.Some? then slot.value.mode else Cold;
      var local := if op.profile.Some? then Some(CleanProfile(op.profile.value, cfg.numPipes)) else None;
      var events := AddFrom(t, 0, op.dev, mode, local, op.addRes).0;
      AddFromOthers(t, 0, op.dev, mode, local, op.addRes, w.trace, d, h);
      DelDownOthers(t, |t|, op.dev, op.delRes, w.trace + events, d, h);
    }
  }

  /** Of a listed handle being informed means that its client is settled. */
  lemma InformedIffSettled(s: Driver, d: nat, k: nat)
    requires d < |s.world.slots| && k < |s.reg.table| && Distinct(s.reg.table)
    ensures Wants(s.reg.table, s.reg.table[k].handle) <==> s.reg.table[k].callbacks.deviceAdd
    ensures Informed(s, d, s.reg.table[k].handle) <==> Settled(s.reg.table[k], s.world, d)
  {
    var t, h := s.reg.table, s.reg.table[k].handle;
    if Wants(t, h) {
      var j :| 0 <= j < |t| && t[j].handle == h && t[j].callbacks.deviceAdd;
      assert j == k;
    }
  }

  lemma DeviceCallInforms(numPipes: nat, s: Driver, op: Op, d: nat, h: int)
    requires Legal(Cfg(s, numPipes), s.world, op) && d < |s.world.slots|
    requires Distinct(s.reg.table) && PairedTable(s.reg.table, h) && Informed(s, d, h)
    ensures Informed(Make(numPipes, s, Dev(op)), d, h)
  {
    var s' := Make(numPipes, s, Dev(op));
    if Registered(s.reg.table, h) {
      var k :| 0 <= k < |s.reg.table| && s.reg.table[k].handle == h;
      InformedIffSettled(s, d, k);
      InformedIffSettled(s', d, k);
      StepSettles(Cfg(s, numPipes), s.world, op, d, k);
    } else {
      UnlistedHearsNothing(Cfg(s, numPipes), s.world, op, d, h);
    }
  }

  // ---------- registry calls ----------

  lemma {:induction false} WithoutKeepsOthers(t: seq<Client>, h: int, c: Client)
    ensures c in Without(t, h) <==> c in t && c.handle != h
  {
    if t != [] {
      WithoutKeepsOthers(t[1..], h, c);
      assert t == [t[0]] + t[1..];
    }
  }

  /** Taking another handle off the table does not change what h wants; taking h off leaves
      nothing of it. */
  lemma RemovedWants(t: seq<Client>, h': int, h: int)
    requires Distinct(t)
    ensures Wants(RemoveFirst(t, h'), h) <==> h != h' && Wants(t, h)
    ensures PairedTable(t, h) ==> PairedTable(RemoveFirst(t, h'), h)
  {
    RemoveFirstDistinct(t, h');
    var r := RemoveFirst(t, h');
    forall c: Client
      ensures c in r <==> c in t && c.handle != h'
    {
      WithoutKeepsOthers(t, h', c);
    }
    SameMembersWant(r, t, h', h);
  }

  lemma SameMembersWant(r: seq<Client>, t: seq<Client>, h': int, h: int)
    requires forall c: Client :: c in r <==> c in t && c.handle != h'
    ensures Wants(r, h) <==> h != h' && Wants(t, h)
    ensures PairedTable(t, h) ==> PairedTable(r, h)
  {
    if k :| 0 <= k < |r| && r[k].handle == h && r[k].callbacks.deviceAdd {
      assert r[k] in t && r[k].handle != h';
    }
    if k :| h != h' && 0 <= k < |t| && t[k].handle == h && t[k].callbacks.deviceAdd {
      assert t[k] in r;
    }
    forall k | PairedTable(t, h) && 0 <= k < |r| && r[k].handle == h
      ensures Paired(r[k])
    {
      assert r[k] in t;
    }
  }

  lemma InsertedMember(t: seq<Client>, i: nat, c: Client, x: Client)
    requires i <= |t|
    ensures x in InsertAt(t, i, c) <==> x == c || x in t
  {
    assert t == t[..i] + t[i..];
  }

  lemma InsertedWants(t: seq<Client>, i: nat, c: Client, h: int)
    requires i <= |t| && !Registered(t, c.handle)
    ensures Wants(InsertAt(t, i, c), h) <==> if h == c.handle then c.callbacks.deviceAdd else Wants(t, h)
    ensures PairedTable(t, h) && (h == c.handle ==> Paired(c)) ==> PairedTable(InsertAt(t, i, c), h)
  {
    forall x: Client
      ensures x in InsertAt(t, i, c) <==> x == c || x in t
    {
      InsertedMember(t, i, c, x);
    }
    AddedMemberWants(InsertAt(t, i, c), t, c, h);
  }

  lemma AddedMemberWants(r: seq<Client>, t: seq<Client>, c: Client, h: int)
    requires !Registered(t, c.handle) && forall x: Client :: x in r <==> x == c || x in t
    ensures Wants(r, h) <==> if h == c.handle then c.callbacks.deviceAdd else Wants(t, h)
    ensures PairedTable(t, h) && (h == c.handle ==> Paired(c)) ==> PairedTable(r, h)
  {
    assert c in r;
    if k :| 0 <= k < |r| && r[k].handle == h && r[k].callbacks.deviceAdd {
      assert r[k] == c || r[k] in t;
    }
    if k :| 0 <= k < |t| && t[k].handle == h && t[k].callbacks.deviceAdd {
      assert t[k] in r;
    }
    forall k | PairedTable(t, h) && (h == c.handle ==> Paired(c)) && 0 <= k < |r| && r[k].handle == h
      ensures Paired(r[k])
    {
      assert r[k] == c || r[k] in t;
    }
  }

  /** What a careful registry call does to what h wants. */
  lemma RegistryCallWants(s: Driver, op: Registry.Op, h: int)
    requires Registry.Inv(s.reg) && Registry.Legal(s.reg, op) && !Registry.Careless(s.reg, op)
    requires PairedTable(s.reg.table, h) && PairedCall(Reg(op), h)
    ensures var t, t' := s.reg.table, Registry.Step(s.reg, op).table;
      && PairedTable(t', h)
      && (Wants(t', h) <==>
            if op == Registry.Deregister(h) then false
            else if op.RegisterCallbacks? && op.handle == h && op.callbacks.Some? && !Registered(t, h)
            then op.callbacks.value.deviceAdd
            else Wants(t, h))
  {
    var t := s.reg.table;
    match op
    case Register(_) =>
    case Deregister(h') => RemovedWants(t, h', h);
    case RegisterCallbacks(h', callbacks, priority) =>
      if callbacks.Some? {
        Registry.RegistrationFindsRoom(s.reg, h', callbacks.value, priority);
        if !Registered(t, h') {
          var c := Client(true, h', priority, s.reg.handles[h'].name, callbacks.value);
          InsertedWants(t, Scan(t, h', priority), c, h);
        }
      }
  }

  /** A careful registry call keeps h informed unless its client comes late or leaves early. */
  lemma RegistryCallInforms(numPipes: nat, s: Driver, op: Registry.Op, d: nat, h: int)
    requires Registry.Inv(s.reg) && Registry.Legal(s.reg, op) && !Registry.Careless(s.reg, op)
    requires PairedTable(s.reg.table, h) && PairedCall(Reg(op), h)
    requires d < |s.world.slots| && Informed(s, d, h)
    ensures Informed(Make(numPipes, s, Reg(op)), d, h) <==> !ComesLate(s, Reg(op), d, h) && !LeavesEarly(s, Reg(op), d, h)
  {
    RegistryCallWants(s, op, h);
    assert !Registered(s.reg.table, h) ==> !Wants(s.reg.table, h);
  }

  // ---------- whole runs ----------

  /** The call is careless, or a client of h comes late to device d or leaves it early. */
  ghost predicate Harmful(s: Driver, call: Call, d: nat, h: int)
    requires d < |s.world.slots| && (call.Reg? ==> Registry.Legal(s.reg, call.regOp))
  {
    CarelessCall(s, call) || ComesLate(s, call, d, h) || LeavesEarly(s, call, d, h)
  }

  ghost predicate Sound(s: Driver, d: nat, h: int)
    requires d < |s.world.slots|
  {
    Registry.Inv(s.reg) && Informed(s, d, h)
  }

  lemma CallKeepsSound(numPipes: nat, s: Driver, call: Call, d: nat, h: int)
    requires LegalCall(numPipes, s, call) && d < |s.world.slots| && Sound(s, d, h)
    requires PairedTable(s.reg.table, h) && PairedCall(call, h)
    ensures Sound(Make(numPipes, s, call), d, h) <==> !Harmful(s, call, d, h)
    ensures !Harmful(s, call, d, h) ==> PairedTable(Make(numPipes, s, call).reg.table, h)
  {
    match call
    case Dev(op) => DeviceCallInforms(numPipes, s, op, d, h);
    case Reg(op) =>
      if Registry.Careless(s.reg, op) {
        Registry.CarelessBreaksInv(s.reg, op);
      } else {
        Registry.StepKeepsInv(s.reg, op);
        RegistryCallWants(s, op, h);
        RegistryCallInforms(numPipes, s, op, d, h);
      }
  }

  ghost predicate SoundThroughout(numPipes: nat, devices: nat, calls: seq<Call>, d: nat, h: int)
    requires d < devices
  {
    && Sound(After(numPipes, devices, calls), d, h)
    && (calls == [] || SoundThroughout(numPipes, devices, calls[..|calls| - 1], d, h))
  }

  ghost predicate NoneHarmful(numPipes: nat, devices: nat, calls: seq<Call>, d: nat, h: int)
    requires d < devices && LegalCalls(numPipes, devices, calls)
  {
    calls == [] ||
    (&& NoneHarmful(numPipes, devices, calls[..|calls| - 1], d, h)
     && !Harmful(After(numPipes, devices, calls[..|calls| - 1]), calls[|calls| - 1], d, h))
  }

  /** Over every run of registry and device calls in any order, whatever the callbacks answer:
      the registry is sound and a handle with paired callbacks is informed of a device
      throughout, if and only if no call is careless and none of its clients comes after the
      device was added or leaves before it is removed. */
  lemma {:induction false} SoundIffNoneHarmful(numPipes: nat, devices: nat, calls: seq<Call>, d: nat, h: int)
    requires d < devices && LegalCalls(numPipes, devices, calls)
    requires forall i | 0 <= i < |calls| :: PairedCall(calls[i], h)
    ensures SoundThroughout(numPipes, devices, calls, d, h) <==> NoneHarmful(numPipes, devices, calls, d, h)
    ensures SoundThroughout(numPipes, devices, calls, d, h) ==>
      PairedTable(After(numPipes, devices, calls).reg.table, h)
  {
    if calls == [] {
      Registry.InitInv();
    } else {
      var before, call := calls[..|calls| - 1], calls[|calls| - 1];
      SoundIffNoneHarmful(numPipes, devices, before, d, h);
      if SoundThroughout(numPipes, devices, before, d, h) {
        CallKeepsSound(numPipes, After(numPipes, devices, before), call, d, h);
      }
    }
  }

  // ---------- runs that do harm ----------

  lemma OneMore(numPipes: nat, devices: nat, calls: seq<Call>, call: Call)
    requires LegalCalls(numPipes, devices, calls) && LegalCall(numPipes, After(numPipes, devices, calls), call)
    ensures LegalCalls(numPipes, devices, calls + [call])
    ensures After(numPipes, devices, calls + [call]) == Make(numPipes, After(numPipes, devices, calls), call)
  {
    assert (calls + [call])[..|calls|] == calls;
  }

  const BOTH := Callbacks(true, true)

  /** The table holds nobody, and handle 1 is the first that is free. */
  ghost predicate Vacant(s: Driver)
  {
    && |s.reg.handles| == Registry.MAX_CLIENTS && s.reg.table == [] && !s.reg.handles[1].inUse
  }

  /** From there, handle 1 is handed out. */
  lemma HandedOut(numPipes: nat, devices: nat, calls: seq<Call>) returns (calls': seq<Call>)
    requires LegalCalls(numPipes, devices, calls) && Vacant(After(numPipes, devices, calls))
    ensures LegalCalls(numPipes, devices, calls') && calls' == calls + [Reg(Registry.Register("a"))]
    ensures var s, s' := After(numPipes, devices, calls), After(numPipes, devices, calls');
      && s'.world == s.world && s'.reg.table == []
      && |s'.reg.handles| == Registry.MAX_CLIENTS && s'.reg.handles[1].inUse
  {
    var call := Reg(Registry.Register("a"));
    OneMore(numPipes, devices, calls, call);
    calls' := calls + [call];
    assert Registry.FreeFrom(After(numPipes, devices, calls).reg.handles, 1) == 1;
  }

  /** Then its callbacks are registered. */
  lemma CallbacksSet(numPipes: nat, devices: nat, calls: seq<Call>) returns (calls': seq<Call>)
    requires LegalCalls(numPipes, devices, calls)
    requires var s := After(numPipes, devices, calls);
      s.reg.table == [] && |s.reg.handles| == Registry.MAX_CLIENTS && s.reg.handles[1].inUse
    ensures LegalCalls(numPipes, devices, calls')
    ensures calls' == calls + [Reg(Registry.RegisterCallbacks(1, Some(BOTH), 0))]
    ensures var s, s' := After(numPipes, devices, calls), After(numPipes, devices, calls');
      && s'.world == s.world && s'.reg.handles == s.reg.handles
      && |s'.reg.table| == 1 && s'.reg.table[0].handle == 1 && s'.reg.table[0].callbacks == BOTH
  {
    var call := Reg(Registry.RegisterCallbacks(1, Some(BOTH), 0));
    OneMore(numPipes, devices, calls, call);
    calls' := calls + [call];
    assert Scan([], 1, 0) == 0;
  }

  /** Then a device that is not there is added, and handle 1 is told: once more, if it was
      told before. */
  lemma AddedToOne(numPipes: nat, devices: nat, calls: seq<Call>, d: nat) returns (calls': seq<Call>)
    requires LegalCalls(numPipes, devices, calls) && d < devices
    requires var s := After(numPipes, devices, calls);
      && s.world.slots[d].None? && |s.reg.table| == 1
      && s.reg.table[0].handle == 1 && s.reg.table[0].callbacks == BOTH
    ensures LegalCalls(numPipes, devices, calls') && calls' == calls + [Dev(PlainAdd(d))]
    ensures var s, s' := After(numPipes, devices, calls), After(numPipes, devices, calls');
      && s'.reg == s.reg && Done(s'.world.slots[d]) && Told(s'.world.trace, d, 1)
      && (Told(s.world.trace, d, 1) ==> !NeverToldTwice(s'.world.trace, d, 1))
  {
    var s := After(numPipes, devices, calls);
    OneMore(numPipes, devices, calls, Dev(PlainAdd(d)));
    calls' := calls + [Dev(PlainAdd(d))];
    AllSucceed(s.reg.table, 0, d, Cold, None);
    AddFromClient(s.reg.table, 0, d, Cold, None, OK, s.world.trace, 0);
  }

  /** A client comes late: its callbacks are registered after the device was added, and it
      has not heard of the device. */
  lemma LateRun(numPipes: nat, devices: nat, d: nat) returns (calls: seq<Call>)
    requires d < devices
    ensures LegalCalls(numPipes, devices, calls)
    ensures calls == [Dev(PlainAdd(d)), Reg(Registry.Register("a")), Reg(Registry.RegisterCallbacks(1, Some(BOTH), 0))]
    ensures !Informed(After(numPipes, devices, calls), d, 1)
  {
    var s := Driver(Registry.Init(), Start(devices));
    assert After(numPipes, devices, []) == s;
    OneMore(numPipes, devices, [], Dev(PlainAdd(d)));
    calls := [] + [Dev(PlainAdd(d))];
    var s1 := After(numPipes, devices, calls);
    assert s1.world == World(s.world.slots[d := s1.world.slots[d]], []) && Done(s1.world.slots[d]);
    calls := HandedOut(numPipes, devices, calls);
    calls := CallbacksSet(numPipes, devices, calls);
    assert Wants(After(numPipes, devices, calls).reg.table, 1);
  }

  /** A client leaves early: it is deregistered while the device is added. */
  lemma EarlyRun(numPipes: nat, devices: nat, d: nat) returns (calls: seq<Call>)
    requires d < devices
    ensures LegalCalls(numPipes, devices, calls)
    ensures calls == [Reg(Registry.Register("a")), Reg(Registry.RegisterCallbacks(1, Some(BOTH), 0)),
                      Dev(PlainAdd(d)), Reg(Registry.Deregister(1))]
    ensures var s := After(numPipes, devices, calls);
      !Informed(s, d, 1) && Vacant(s) && Told(s.world.trace, d, 1) && s.world.slots[d].Some?
  {
    assert After(numPipes, devices, []) == Driver(Registry.Init(), Start(devices));
    calls := HandedOut(numPipes, devices, []);
    calls := CallbacksSet(numPipes, devices, calls);
    calls := AddedToOne(numPipes, devices, calls, d);
    var s := After(numPipes, devices, calls);
    OneMore(numPipes, devices, calls, Reg(Registry.Deregister(1)));
    calls := calls + [Reg(Registry.Deregister(1))];
    assert RemoveFirst(s.reg.table, 1) == [];
  }

  /** The handle that it leaves behind is handed out again, and told a second time of the
      device without having heard that it was removed. */
  lemma ReusedHandleToldTwice(numPipes: nat, devices: nat, d: nat) returns (calls: seq<Call>)
    requires d < devices
    ensures LegalCalls(numPipes, devices, calls) && !NeverToldTwice(After(numPipes, devices, calls).world.trace, d, 1)
  {
    calls := EarlyRun(numPipes, devices, d);
    var s := After(numPipes, devices, calls);
    OneMore(numPipes, devices, calls, Dev(Remove(d, OK)));
    calls := calls + [Dev(Remove(d, OK))];
    assert s.world.trace + [] == s.world.trace;
    calls := HandedOut(numPipes, devices, calls);
    calls := CallbacksSet(numPipes, devices, calls);
    calls := AddedToOne(numPipes, devices, calls, d);
  }
}

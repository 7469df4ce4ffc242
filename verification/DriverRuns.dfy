/**
 The registry and the device manager together: what the order and distinctness
 that the registry keeps are worth to the clients.
 */
module DriverRuns {
  import opened Status
  import opened Clients
  import opened PipeScope
  import opened Devices
  import opened DeviceRuns
  import Registry

  // ---------- a client listed twice ----------

  lemma {:induction false} ToldTwiceForever(trace: seq<Event>, more: seq<Event>, d: nat, h: int)
    requires !NeverToldTwice(trace, d, h)
    ensures !NeverToldTwice(trace + more, d, h)
  {
    if more == [] {
      assert trace + more == trace;
    } else {
      var front, e := more[..|more| - 1], more[|more| - 1];
      ToldTwiceForever(trace, front, d, h);
      assert trace + more == (trace + front) + [e];
      ToldTwiceOf(trace + front, e, d, h);
    }
  }

  /** Told already, and told again as client j. */
  lemma {:induction false} ToldAgain(t: seq<Client>, i: nat, j: nat, dev: nat, mode: Mode, profile: Option<Profile>,
                                     trace: seq<Event>)
    requires i <= j < |t| && t[j].callbacks.deviceAdd && Told(trace, dev, t[j].handle)
    ensures !NeverToldTwice(trace + AddFrom(t, i, dev, mode, profile, OK).0, dev, t[j].handle)
    decreases |t| - i
  {
    if !t[i].callbacks.deviceAdd {
      ToldAgain(t, i + 1, j, dev, mode, profile, trace);
    } else {
      var h, e := t[j].handle, AddCall(dev, t[i].handle, mode, profile, BF_SUCCESS);
      var rest := AddFrom(t, i + 1, dev, mode, profile, OK).0;
      LastOf(trace, e, dev, h);
      ToldTwiceOf(trace, e, dev, h);
      Regroup(trace, e, rest);
      if i == j {
        ToldTwiceForever(trace + [e], rest, dev, h);
      } else {
        ToldAgain(t, i + 1, j, dev, mode, profile, trace + [e]);
      }
    }
  }

  /** A client listed as i and as j is told twice by one successful round. */
  lemma {:induction false} ListedTwice(t: seq<Client>, from: nat, i: nat, j: nat, dev: nat, mode: Mode,
                                       profile: Option<Profile>, trace: seq<Event>)
    requires from <= i < j < |t| && t[i].handle == t[j].handle
    requires t[i].callbacks.deviceAdd && t[j].callbacks.deviceAdd
    ensures !NeverToldTwice(trace + AddFrom(t, from, dev, mode, profile, OK).0, dev, t[i].handle)
    decreases |t| - from
  {
    if !t[from].callbacks.deviceAdd {
      ListedTwice(t, from + 1, i, j, dev, mode, profile, trace);
    } else {
      var h, e := t[i].handle, AddCall(dev, t[from].handle, mode, profile, BF_SUCCESS);
      var rest := AddFrom(t, from + 1, dev, mode, profile, OK).0;
      Regroup(trace, e, rest);
      if from == i {
        LastOf(trace, e, dev, h);
        ToldAgain(t, from + 1, j, dev, mode, profile, trace + [e]);
      } else {
        ListedTwice(t, from + 1, i, j, dev, mode, profile, trace + [e]);
      }
    }
  }

  lemma PlainAddTellsTwice(cfg: Config, devices: nat, d: nat, i: nat, j: nat)
    requires d < devices && i < j < |cfg.clients| && cfg.clients[i].handle == cfg.clients[j].handle
    requires cfg.clients[i].callbacks.deviceAdd && cfg.clients[j].callbacks.deviceAdd
    ensures LegalRun(cfg, devices, [PlainAdd(d)])
    ensures !NeverToldTwice(Run(cfg, devices, [PlainAdd(d)]).trace, d, cfg.clients[i].handle)
  {
    var ops := [PlainAdd(d)];
    assert ops[..0] == [] && Run(cfg, devices, []) == Start(devices);
    AllSucceed(cfg.clients, 0, d, Cold, None);
    ListedTwice(cfg.clients, 0, i, j, d, Cold, None, []);
  }

  ghost predicate AllCallbacksSet(t: seq<Client>)
  {
    forall k | 0 <= k < |t| :: t[k].callbacks.deviceAdd && t[k].callbacks.deviceDel
  }

  ghost predicate NoneToldTwice(cfg: Config, devices: nat, d: nat)
  {
    forall k | 0 <= k < |cfg.clients| :: NeverToldTwiceInAnyRun(cfg, devices, d, cfg.clients[k].handle)
  }

  /** Of clients with both callbacks, none is told twice of a device in any run exactly
      when no handle is listed twice. */
  lemma NoneToldTwiceIffDistinct(cfg: Config, devices: nat, d: nat)
    requires d < devices && AllCallbacksSet(cfg.clients)
    ensures NoneToldTwice(cfg, devices, d) <==> Distinct(cfg.clients)
  {
    var t := cfg.clients;
    if Distinct(t) {
      forall k | 0 <= k < |t|
        ensures NeverToldTwiceInAnyRun(cfg, devices, d, t[k].handle)
      {
        NeverToldTwiceIffPaired(cfg, devices, d, k);
      }
    } else {
      var i, j :| 0 <= i < j < |t| && t[i].handle == t[j].handle;
      PlainAddTellsTwice(cfg, devices, d, i, j);
    }
  }

  // ---------- the registry's part ----------

  /** After every careful run of the registry and every run of the device operations over
      its table: the table is sorted by priority, and every paired client knows of a
      device exactly while it is completely added, and was never told twice. */
  lemma CarefulRegistryInformsClients(regOps: seq<Registry.Op>, numPipes: nat, devices: nat, ops: seq<Op>, d: nat, k: nat)
    requires Registry.LegalRun(regOps) && Registry.CarefulRun(regOps)
    requires LegalRun(Config(Registry.Run(regOps).table, numPipes), devices, ops) && d < devices
    requires k < |Registry.Run(regOps).table| && Paired(Registry.Run(regOps).table[k])
    ensures var table := Registry.Run(regOps).table;
      && SortedDown(table)
      && Settled(table[k], Run(Config(table, numPipes), devices, ops), d)
  {
    Registry.InvIffCareful(regOps);
    RunSettles(Config(Registry.Run(regOps).table, numPipes), devices, ops, d, k);
  }

  /** Registering a handle again past a client of lower priority makes the device manager
      tell that client twice of one device. */
  lemma CarelessRegistrationTellsTwice(st: Registry.State, h: int, callbacks: Callbacks, priority: int,
                                       numPipes: nat, devices: nat, d: nat)
    requires Registry.Inv(st) && 0 <= h < Registry.MAX_CLIENTS && d < devices
    requires Registry.Shadowed(st.table, h, priority)
    requires AllCallbacksSet(Registry.DoRegisterCallbacks(st, h, Some(callbacks), priority).0.table)
    ensures var table := Registry.DoRegisterCallbacks(st, h, Some(callbacks), priority).0.table;
      !NoneToldTwice(Config(table, numPipes), devices, d)
  {
    var table := Registry.DoRegisterCallbacks(st, h, Some(callbacks), priority).0.table;
    Registry.ShadowedIsRepeated(st, h, callbacks, priority);
    NoneToldTwiceIffDistinct(Config(table, numPipes), devices, d);
  }

  /** A run of the registry from its start after which adding a device tells client 2 twice. */
  lemma RepeatedRegistrationTellsTwice(numPipes: nat, devices: nat, d: nat) returns (regOps: seq<Registry.Op>)
    requires d < devices
    ensures Registry.LegalRun(regOps)
    ensures var cfg := Config(Registry.Run(regOps).table, numPipes);
      LegalRun(cfg, devices, [PlainAdd(d)]) && !NeverToldTwice(Run(cfg, devices, [PlainAdd(d)]).trace, d, 2)
  {
    var op;
    regOps, op := Registry.RepeatedRegistration(Callbacks(true, true));
    Registry.RunAppend(regOps, op);
    regOps := regOps + [op];
    PlainAddTellsTwice(Config(Registry.Run(regOps).table, numPipes), devices, d, 0, 2);
  }
}

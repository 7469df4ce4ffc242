/** What holds over every run of the device operations. */
module DeviceRuns {
  import opened Status
  import opened Clients
  import opened PipeScope
  import opened Devices

  /** A client that wants to hear of added devices also wants to hear of removed ones. */
  ghost predicate Paired(c: Client)
  {
    c.callbacks.deviceAdd ==> c.callbacks.deviceDel
  }

  /** Client c was never told twice of device d, and knows of it exactly while the
      device is completely added. */
  ghost predicate Settled(c: Client, w: World, d: nat)
    requires d < |w.slots|
  {
    && NeverToldTwice(w.trace, d, c.handle)
    && (if Done(w.slots[d]) && c.callbacks.deviceAdd
        then Told(w.trace, d, c.handle) && Last(w.trace, d, c.handle).value.status == BF_SUCCESS
        else !Told(w.trace, d, c.handle))
  }

  // ---------- each operation ----------

  lemma RemoveSettles(cfg: Config, w: World, dev: nat, delRes: Answers, d: nat, k: nat)
    requires dev < |w.slots| && d < |w.slots| && k < |cfg.clients|
    requires Distinct(cfg.clients) && Paired(cfg.clients[k]) && Settled(cfg.clients[k], w, d)
    ensures Settled(cfg.clients[k], DoRemove(cfg, w, dev, delRes).0, d)
  {
    var t := cfg.clients;
    if w.slots[dev].Some? {
      DelDownOthers(t, |t|, dev, delRes, w.trace, d, t[k].handle);
      if d == dev && t[k].callbacks.deviceDel {
        DelDownClient(t, |t|, dev, delRes, w.trace, k);
      }
    }
  }

  lemma BeginSettles(cfg: Config, w: World, dev: nat, mode: Mode, alloc: bool, delRes: Answers, d: nat, k: nat)
    requires dev < |w.slots| && d < |w.slots| && k < |cfg.clients|
    requires Distinct(cfg.clients) && Paired(cfg.clients[k]) && Settled(cfg.clients[k], w, d)
    ensures Settled(cfg.clients[k], DoBegin(cfg, w, dev, mode, alloc, delRes).0, d)
  {
    if mode != FastRecfgQuick && Done(w.slots[dev]) {
      RemoveSettles(cfg, w, dev, delRes, d, k);
    }
  }

  /** A failed round of device_add followed by device_del for all settles client k. */
  lemma RollbackSettles(t: seq<Client>, dev: nat, mode: Mode, profile: Option<Profile>, addRes: Answers,
                        delRes: Answers, trace: seq<Event>, d: nat, k: nat)
    requires k < |t| && Distinct(t) && Paired(t[k])
    requires NeverToldTwice(trace, d, t[k].handle) && (d == dev ==> !Told(trace, d, t[k].handle))
    ensures var events := AddFrom(t, 0, dev, mode, profile, addRes).0;
      var after := trace + events + DelDown(t, |t|, dev, delRes);
      && NeverToldTwice(after, d, t[k].handle)
      && (d == dev ==> !Told(after, d, t[k].handle))
      && (d != dev ==> Last(after, d, t[k].handle) == Last(trace, d, t[k].handle))
  {
    var events := AddFrom(t, 0, dev, mode, profile, addRes).0;
    var h := t[k].handle;
    if d == dev && t[k].callbacks.deviceAdd {
      AddFromClient(t, 0, dev, mode, profile, addRes, trace, k);
    } else {
      AddFromOthers(t, 0, dev, mode, profile, addRes, trace, d, h);
    }
    DelDownOthers(t, |t|, dev, delRes, trace + events, d, h);
    if d == dev && t[k].callbacks.deviceDel {
      DelDownClient(t, |t|, dev, delRes, trace + events, k);
    }
  }

  lemma AddSettles(cfg: Config, w: World, dev: nat, family: int, profile: Option<Profile>, isSwModel: bool,
                   alloc: bool, addRes: Answers, delRes: Answers, d: nat, k: nat)
    requires dev < |w.slots| && (profile.Some? ==> ProfileFits(profile.value, cfg.numPipes))
    requires d < |w.slots| && k < |cfg.clients|
    requires Distinct(cfg.clients) && Paired(cfg.clients[k]) && Settled(cfg.clients[k], w, d)
    ensures Settled(cfg.clients[k], DoAdd(cfg, w, dev, family, profile, isSwModel, alloc, addRes, delRes).0, d)
  {
    var t, h := cfg.clients, cfg.clients[k].handle;
    if !Done(w.slots[dev]) && !(profile.Some? && ProfileRefused(profile.value, cfg.numPipes)) {
      var mode := if w.slots[dev].Some? then w.slots[dev].value.mode else Cold;
      var local := if profile.Some? then Some(CleanProfile(profile.value, cfg.numPipes)) else None;
      RollbackSettles(t, dev, mode, local, addRes, delRes, w.trace, d, k);
      if d == dev && t[k].callbacks.deviceAdd {
        AddFromClient(t, 0, dev, mode, local, addRes, w.trace, k);
      } else {
        AddFromOthers(t, 0, dev, mode, local, addRes, w.trace, d, h);
      }
    }
  }

  lemma StepSettles(cfg: Config, w: World, op: Op, d: nat, k: nat)
    requires Legal(cfg, w, op) && d < |w.slots| && k < |cfg.clients|
    requires Distinct(cfg.clients) && Paired(cfg.clients[k]) && Settled(cfg.clients[k], w, d)
    ensures Settled(cfg.clients[k], Step(cfg, w, op).0, d)
  {
    match op
    case Add(dev, family, profile, isSwModel, alloc, addRes, delRes) =>
      AddSettles(cfg, w, dev, family, profile, isSwModel, alloc, addRes, delRes, d, k);
    case Remove(dev, delRes) => RemoveSettles(cfg, w, dev, delRes, d, k);
    case Begin(dev, mode, alloc, delRes) => BeginSettles(cfg, w, dev, mode, alloc, delRes, d, k);
    case End(dev) =>
  }

  // ---------- whole runs ----------

  /** Over every run, whatever the callbacks answer: no paired client is told twice
      of a device, and it knows of the device exactly while it is completely added. */
  lemma {:induction false} RunSettles(cfg: Config, devices: nat, ops: seq<Op>, d: nat, k: nat)
    requires Distinct(cfg.clients) && LegalRun(cfg, devices, ops)
    requires d < devices && k < |cfg.clients| && Paired(cfg.clients[k])
    ensures Settled(cfg.clients[k], Run(cfg, devices, ops), d)
  {
    if ops != [] {
      var before := ops[..|ops| - 1];
      RunSettles(cfg, devices, before, d, k);
      assert Legal(cfg, Start(devices), ops[|ops| - 1]);
      StepSettles(cfg, Run(cfg, devices, before), ops[|ops| - 1], d, k);
    }
  }

  ghost predicate NeverToldTwiceInAnyRun(cfg: Config, devices: nat, d: nat, h: int)
  {
    forall ops: seq<Op> | LegalRun(cfg, devices, ops) :: NeverToldTwice(Run(cfg, devices, ops).trace, d, h)
  }

  const OK: Answers := _ => BF_SUCCESS

  /** Adding a device, with every callback successful. */
  ghost function PlainAdd(d: nat): (op: Op)
  {
    Add(d, 0, None, false, true, OK, OK)
  }

  /** Add, remove, add. */
  ghost function AddRemoveAdd(d: nat): (ops: seq<Op>)
  {
    [PlainAdd(d), Remove(d, OK), PlainAdd(d)]
  }

  lemma {:induction false} AllSucceed(t: seq<Client>, i: nat, dev: nat, mode: Mode, profile: Option<Profile>)
    requires i <= |t|
    ensures AddFrom(t, i, dev, mode, profile, OK).1 == BF_SUCCESS
    decreases |t| - i
  {
    if i < |t| {
      AllSucceed(t, i + 1, dev, mode, profile);
    }
  }

  lemma RunOfThree(cfg: Config, devices: nat, a: Op, b: Op, c: Op)
    requires LegalRun(cfg, devices, [a, b, c])
    ensures Legal(cfg, Start(devices), a) && Legal(cfg, Start(devices), b) && Legal(cfg, Start(devices), c)
    ensures Run(cfg, devices, [a, b, c])
         == Step(cfg, Step(cfg, Step(cfg, Start(devices), a).0, b).0, c).0
  {
    var ops := [a, b, c];
    assert ops[0] == a && ops[1] == b && ops[2] == c;
    assert ops[..2] == [a, b] && [a, b][..1] == [a] && [a][..0] == [];
    assert LegalRun(cfg, devices, [a]) && LegalRun(cfg, devices, [a, b]);
    assert Run(cfg, devices, []) == Start(devices);
    assert Run(cfg, devices, [a]) == Step(cfg, Start(devices), a).0;
    assert Run(cfg, devices, [a, b]) == Step(cfg, Run(cfg, devices, [a]), b).0;
  }

  /** A client with device_add but without device_del is told twice by that run. */
  lemma UnpairedToldTwice(cfg: Config, devices: nat, d: nat, k: nat)
    requires Distinct(cfg.clients) && d < devices && k < |cfg.clients| && !Paired(cfg.clients[k])
    ensures LegalRun(cfg, devices, AddRemoveAdd(d))
    ensures !NeverToldTwice(Run(cfg, devices, AddRemoveAdd(d)).trace, d, cfg.clients[k].handle)
  {
    var t, h := cfg.clients, cfg.clients[k].handle;
    var ops := AddRemoveAdd(d);
    RunOfThree(cfg, devices, ops[0], ops[1], ops[2]);
    AllSucceed(t, 0, d, Cold, None);
    var w1 := Step(cfg, Start(devices), ops[0]).0;
    AddFromClient(t, 0, d, Cold, None, OK, [], k);
    assert Told(w1.trace, d, h) && w1.slots[d].Some?;
    var w2 := Step(cfg, w1, ops[1]).0;
    DelDownOthers(t, |t|, d, OK, w1.trace, d, h);
    assert Told(w2.trace, d, h) && w2.slots[d].None?;
    AddFromClient(t, 0, d, Cold, None, OK, w2.trace, k);
  }

  /** A client is never told twice, in any run, exactly when it is paired or wants no device_add. */
  lemma NeverToldTwiceIffPaired(cfg: Config, devices: nat, d: nat, k: nat)
    requires Distinct(cfg.clients) && d < devices && k < |cfg.clients|
    ensures NeverToldTwiceInAnyRun(cfg, devices, d, cfg.clients[k].handle) <==> Paired(cfg.clients[k])
  {
    if Paired(cfg.clients[k]) {
      forall ops: seq<Op> | LegalRun(cfg, devices, ops)
        ensures NeverToldTwice(Run(cfg, devices, ops).trace, d, cfg.clients[k].handle)
      {
        RunSettles(cfg, devices, ops, d, k);
      }
    } else {
      UnpairedToldTwice(cfg, devices, d, k);
    }
  }
}

/**
 The device life cycle of src/dvm/dvm.c as a state machine: which slots are
 occupied, and every callback made to the driver clients, with arbitrary results.
 */
module Devices {
  import opened Status
  import opened Clients
  import opened PipeScope

  datatype Mode = Cold | FastRecfg | Hitless | FastRecfgQuick

  datatype Asic = Asic(devId: int, family: int, isSwModel: bool, numPipes: nat,
                       mode: Mode, inProgress: bool, addDone: bool)

  const ZEROED := Asic(0, 0, false, 0, Cold, false, false)

  type Slot = Option<Asic>

  /** A callback made to the client of a handle, and what it returned. */
  datatype Event =
    | AddCall(dev: nat, handle: int, mode: Mode, profile: Option<Profile>, status: Code)
    | DelCall(dev: nat, handle: int, status: Code)

  /** The client table, highest priority first, and the pipe count that profiles are held against. */
  datatype Config = Config(clients: seq<Client>, numPipes: nat)

  datatype World = World(slots: seq<Slot>, trace: seq<Event>)

  /** What the i-th client of the table answers. */
  type Answers = nat -> Code

  // ---------- telling the clients ----------

  /** device_add to the clients from i on, until one fails. */
  ghost function AddFrom(t: seq<Client>, i: nat, dev: nat, mode: Mode, profile: Option<Profile>, res: Answers)
    : (r: (seq<Event>, Code))
    requires i <= |t|
    decreases |t| - i
  {
    if i == |t| then ([], BF_SUCCESS)
    else if !t[i].callbacks.deviceAdd then AddFrom(t, i + 1, dev, mode, profile, res)
    else
      var e := AddCall(dev, t[i].handle, mode, profile, res(i));
      if res(i) != BF_SUCCESS then ([e], res(i))
      else
        var rest := AddFrom(t, i + 1, dev, mode, profile, res);
        ([e] + rest.0, rest.1)
  }

  /** device_del to the first n clients, last to first. */
  ghost function DelDown(t: seq<Client>, n: nat, dev: nat, res: Answers): (r: seq<Event>)
    requires n <= |t|
  {
    if n == 0 then []
    else (if t[n - 1].callbacks.deviceDel then [DelCall(dev, t[n - 1].handle, res(n - 1))] else [])
         + DelDown(t, n - 1, dev, res)
  }

  /** The first status that is not success. */
  ghost function FirstFailure(events: seq<Event>): (r: Code)
  {
    if events == [] then BF_SUCCESS
    else if events[0].status != BF_SUCCESS then events[0].status
    else FirstFailure(events[1..])
  }

  // ---------- the operations ----------

  ghost predicate Done(slot: Slot)
  {
    slot.Some? && slot.value.addDone
  }

  ghost function DoAdd(cfg: Config, w: World, dev: nat, family: int, profile: Option<Profile>, isSwModel: bool,
                       alloc: bool, addRes: Answers, delRes: Answers): (r: (World, Code))
    requires dev < |w.slots| && (profile.Some? ==> ProfileFits(profile.value, cfg.numPipes))
  {
    var slot := w.slots[dev];
    if Done(slot) then (w, BF_ALREADY_EXISTS)
    else if slot.None? && !alloc then (w, BF_NO_SYS_RESOURCES)
    else
      var mode := if slot.Some? then slot.value.mode else Cold;
      var asic := (if slot.Some? then slot.value else ZEROED)
                  .(devId := dev, family := family, isSwModel := isSwModel, numPipes := 1);
      if profile.Some? && ProfileRefused(profile.value, cfg.numPipes) then
        (w.(slots := w.slots[dev := Some(asic)]), BF_INVALID_ARG)
      else
        var local := if profile.Some? then Some(CleanProfile(profile.value, cfg.numPipes)) else None;
        var (events, status) := AddFrom(cfg.clients, 0, dev, mode, local, addRes);
        if status != BF_SUCCESS then
          (World(w.slots[dev := None], w.trace + events + DelDown(cfg.clients, |cfg.clients|, dev, delRes)), status)
        else
          (World(w.slots[dev := Some(asic.(addDone := true))], w.trace + events), status)
  }

  ghost function DoRemove(cfg: Config, w: World, dev: nat, delRes: Answers): (r: (World, Code))
    requires dev < |w.slots|
  {
    if w.slots[dev].None? then (w, BF_OBJECT_NOT_FOUND)
    else
      var events := DelDown(cfg.clients, |cfg.clients|, dev, delRes);
      (World(w.slots[dev := None], w.trace + events), FirstFailure(events))
  }

  ghost function DoBegin(cfg: Config, w: World, dev: nat, mode: Mode, alloc: bool, delRes: Answers)
    : (r: (World, Code))
    requires dev < |w.slots|
  {
    if mode != FastRecfgQuick then
      var (w1, status) := if Done(w.slots[dev]) then DoRemove(cfg, w, dev, delRes) else (w, BF_SUCCESS);
      if status != BF_SUCCESS then (w1, status)
      else if !alloc then (w1.(slots := w1.slots[dev := None]), BF_NO_SYS_RESOURCES)
      else
        (w1.(slots := w1.slots[dev := Some(ZEROED.(devId := dev, mode := mode, inProgress := true))]), BF_SUCCESS)
    else if w.slots[dev].None? then (w, BF_INVALID_ARG)
    else (w.(slots := w.slots[dev := Some(w.slots[dev].value.(mode := mode, inProgress := true))]), BF_SUCCESS)
  }

  ghost function DoEnd(w: World, dev: nat): (r: (World, Code))
    requires dev < |w.slots|
  {
    if !Done(w.slots[dev]) then (w, BF_OBJECT_NOT_FOUND)
    else if w.slots[dev].value.mode == Cold then (w, BF_SUCCESS)
    else (w.(slots := w.slots[dev := Some(w.slots[dev].value.(inProgress := false))]), BF_SUCCESS)
  }

  datatype Op =
    | Add(dev: nat, family: int, profile: Option<Profile>, isSwModel: bool, alloc: bool, addRes: Answers, delRes: Answers)
    | Remove(dev: nat, delRes: Answers)
    | Begin(dev: nat, mode: Mode, alloc: bool, delRes: Answers)
    | End(dev: nat)

  ghost predicate Legal(cfg: Config, w: World, op: Op)
  {
    && op.dev < |w.slots|
    && (op.Add? && op.profile.Some? ==> ProfileFits(op.profile.value, cfg.numPipes))
  }

  ghost function Step(cfg: Config, w: World, op: Op): (r: (World, Code))
    requires Legal(cfg, w, op)
    ensures |r.0.slots| == |w.slots|
  {
    match op
    case Add(dev, family, profile, isSwModel, alloc, addRes, delRes) =>
      DoAdd(cfg, w, dev, family, profile, isSwModel, alloc, addRes, delRes)
    case Remove(dev, delRes) => DoRemove(cfg, w, dev, delRes)
    case Begin(dev, mode, alloc, delRes) => DoBegin(cfg, w, dev, mode, alloc, delRes)
    case End(dev) => DoEnd(w, dev)
  }

  ghost function Start(devices: nat): (w: World)
  {
    World(seq(devices, _ => None), [])
  }

  /** The operations fit a driver of that many devices. */
  ghost predicate LegalRun(cfg: Config, devices: nat, ops: seq<Op>)
  {
    forall k | 0 <= k < |ops| :: Legal(cfg, Start(devices), ops[k])
  }

  ghost function Run(cfg: Config, devices: nat, ops: seq<Op>): (w: World)
    requires LegalRun(cfg, devices, ops)
    ensures |w.slots| == devices
  {
    if ops == [] then Start(devices) else Step(cfg, Run(cfg, devices, ops[..|ops| - 1]), ops[|ops| - 1]).0
  }

  // ---------- what a client has been told ----------

  predicate About(e: Event, d: nat, h: int)
  {
    e.dev == d && e.handle == h
  }

  /** The last callback made to client h for device d. */
  ghost function Last(trace: seq<Event>, d: nat, h: int): (r: Option<Event>)
  {
    if trace == [] then None
    else if About(trace[|trace| - 1], d, h) then Some(trace[|trace| - 1])
    else Last(trace[..|trace| - 1], d, h)
  }

  /** The last thing client h was told of device d is that it was added. */
  ghost predicate Told(trace: seq<Event>, d: nat, h: int)
  {
    Last(trace, d, h).Some? && Last(trace, d, h).value.AddCall?
  }

  /** Between any two device_add calls for device d client h got a device_del. */
  ghost predicate NeverToldTwice(trace: seq<Event>, d: nat, h: int)
  {
    forall i, j | 0 <= i < j < |trace| && trace[i].AddCall? && About(trace[i], d, h)
                  && trace[j].AddCall? && About(trace[j], d, h) ::
      exists k :: i < k < j && trace[k].DelCall? && About(trace[k], d, h)
  }

  lemma LastOf(trace: seq<Event>, e: Event, d: nat, h: int)
    ensures Last(trace + [e], d, h) == if About(e, d, h) then Some(e) else Last(trace, d, h)
  {
    assert (trace + [e])[..|trace|] == trace;
  }

  lemma {:induction false} LastAt(trace: seq<Event>, d: nat, h: int) returns (i: int)
    ensures -1 <= i < |trace|
    ensures i >= 0 ==> About(trace[i], d, h) && Last(trace, d, h) == Some(trace[i])
    ensures i < 0 ==> Last(trace, d, h) == None
    ensures forall k | i < k < |trace| :: !About(trace[k], d, h)
  {
    if trace == [] {
      i := -1;
    } else if About(trace[|trace| - 1], d, h) {
      i := |trace| - 1;
    } else {
      i := LastAt(trace[..|trace| - 1], d, h);
    }
  }

  /** One more callback repeats a device_add exactly when the client was told last. */
  lemma ToldTwiceOf(trace: seq<Event>, e: Event, d: nat, h: int)
    ensures NeverToldTwice(trace + [e], d, h) <==>
      NeverToldTwice(trace, d, h) && !(e.AddCall? && About(e, d, h) && Told(trace, d, h))
  {
    var t := trace + [e];
    var n := |trace|;
    assert forall k | 0 <= k < n :: t[k] == trace[k];
    var last := LastAt(trace, d, h);
    if NeverToldTwice(t, d, h) {
      PrefixNeverTold(trace, e, d, h);
    }
    if e.AddCall? && About(e, d, h) && Told(trace, d, h) {
      assert t[last].AddCall? && About(t[last], d, h) && t[n].AddCall? && About(t[n], d, h);
      assert forall k | last < k < n :: !About(t[k], d, h);
    }
    if NeverToldTwice(trace, d, h) && !(e.AddCall? && About(e, d, h) && Told(trace, d, h)) {
      ExtendNeverTold(trace, e, d, h, last);
    }
  }

  lemma PrefixNeverTold(trace: seq<Event>, e: Event, d: nat, h: int)
    requires NeverToldTwice(trace + [e], d, h)
    ensures NeverToldTwice(trace, d, h)
  {
    var t := trace + [e];
    forall i, j | 0 <= i < j < |trace| && trace[i].AddCall? && About(trace[i], d, h)
                  && trace[j].AddCall? && About(trace[j], d, h)
      ensures exists k :: i < k < j && trace[k].DelCall? && About(trace[k], d, h)
    {
      assert t[i] == trace[i] && t[j] == trace[j];
      var k :| i < k < j && t[k].DelCall? && About(t[k], d, h);
      assert trace[k] == t[k];
    }
  }

  lemma ExtendNeverTold(trace: seq<Event>, e: Event, d: nat, h: int, last: int)
    requires NeverToldTwice(trace, d, h)
    requires -1 <= last < |trace| && forall k | last < k < |trace| :: !About(trace[k], d, h)
    requires last >= 0 ==> About(trace[last], d, h)
    requires e.AddCall? && About(e, d, h) && last >= 0 ==> trace[last].DelCall?
    ensures NeverToldTwice(trace + [e], d, h)
  {
    var t := trace + [e];
    forall i, j | 0 <= i < j < |t| && t[i].AddCall? && About(t[i], d, h) && t[j].AddCall? && About(t[j], d, h)
      ensures exists k :: i < k < j && t[k].DelCall? && About(t[k], d, h)
    {
      assert t[i] == trace[i];
      if j < |trace| {
        assert t[j] == trace[j];
        var k :| i < k < j && trace[k].DelCall? && About(trace[k], d, h);
        assert t[k] == trace[k];
      } else {
        assert i <= last && i != last;
        assert t[last] == trace[last];
      }
    }
  }

  // ---------- what one round of callbacks does to a client ----------

  /** The trace so far, and then more of it. */
  lemma Regroup(trace: seq<Event>, e: Event, rest: seq<Event>)
    ensures trace + ([e] + rest) == (trace + [e]) + rest
  {
  }

  /** Clients before i, clients without device_add and other devices are not touched. */
  lemma {:induction false} AddFromOthers(t: seq<Client>, i: nat, dev: nat, mode: Mode, profile: Option<Profile>,
                                         res: Answers, trace: seq<Event>, d: nat, h: int)
    requires i <= |t|
    requires d != dev || forall k | i <= k < |t| :: t[k].callbacks.deviceAdd ==> t[k].handle != h
    ensures var after := trace + AddFrom(t, i, dev, mode, profile, res).0;
      && Last(after, d, h) == Last(trace, d, h)
      && (NeverToldTwice(after, d, h) <==> NeverToldTwice(trace, d, h))
    decreases |t| - i
  {
    if i == |t| {
      assert trace + [] == trace;
    } else if !t[i].callbacks.deviceAdd {
      AddFromOthers(t, i + 1, dev, mode, profile, res, trace, d, h);
    } else {
      var e := AddCall(dev, t[i].handle, mode, profile, res(i));
      LastOf(trace, e, d, h);
      ToldTwiceOf(trace, e, d, h);
      if res(i) == BF_SUCCESS {
        AddFromOthers(t, i + 1, dev, mode, profile, res, trace + [e], d, h);
        Regroup(trace, e, AddFrom(t, i + 1, dev, mode, profile, res).0);
      }
    }
  }

  /** Client k is told once, and if all succeed it is told. */
  lemma {:induction false} AddFromClient(t: seq<Client>, i: nat, dev: nat, mode: Mode, profile: Option<Profile>,
                                         res: Answers, trace: seq<Event>, k: nat)
    requires i <= k < |t| && Distinct(t) && t[k].callbacks.deviceAdd
    ensures var (events, status) := AddFrom(t, i, dev, mode, profile, res);
      && (NeverToldTwice(trace, dev, t[k].handle) && !Told(trace, dev, t[k].handle) ==>
            NeverToldTwice(trace + events, dev, t[k].handle))
      && (status == BF_SUCCESS ==>
            && Last(trace + events, dev, t[k].handle) == Some(AddCall(dev, t[k].handle, mode, profile, BF_SUCCESS))
            && (Told(trace, dev, t[k].handle) ==> !NeverToldTwice(trace + events, dev, t[k].handle)))
    decreases |t| - i
  {
    var h := t[k].handle;
    if !t[i].callbacks.deviceAdd {
      AddFromClient(t, i + 1, dev, mode, profile, res, trace, k);
    } else {
      var e := AddCall(dev, t[i].handle, mode, profile, res(i));
      LastOf(trace, e, dev, h);
      ToldTwiceOf(trace, e, dev, h);
      if res(i) == BF_SUCCESS {
        Regroup(trace, e, AddFrom(t, i + 1, dev, mode, profile, res).0);
        if i == k {
          AddFromOthers(t, i + 1, dev, mode, profile, res, trace + [e], dev, h);
        } else {
          AddFromClient(t, i + 1, dev, mode, profile, res, trace + [e], k);
        }
      }
    }
  }

  /** device_del never repeats a device_add; it leaves other devices and clients
      without device_del as they were. */
  lemma {:induction false} DelDownOthers(t: seq<Client>, n: nat, dev: nat, res: Answers, trace: seq<Event>, d: nat, h: int)
    requires n <= |t|
    ensures var after := trace + DelDown(t, n, dev, res);
      && (NeverToldTwice(after, d, h) <==> NeverToldTwice(trace, d, h))
      && ((d != dev || forall k | 0 <= k < n :: t[k].callbacks.deviceDel ==> t[k].handle != h) ==>
            Last(after, d, h) == Last(trace, d, h))
  {
    if n == 0 {
      assert trace + [] == trace;
    } else if t[n - 1].callbacks.deviceDel {
      var e := DelCall(dev, t[n - 1].handle, res(n - 1));
      LastOf(trace, e, d, h);
      ToldTwiceOf(trace, e, d, h);
      DelDownOthers(t, n - 1, dev, res, trace + [e], d, h);
      Regroup(trace, e, DelDown(t, n - 1, dev, res));
    } else {
      DelDownOthers(t, n - 1, dev, res, trace, d, h);
      assert [] + DelDown(t, n - 1, dev, res) == DelDown(t, n - 1, dev, res);
    }
  }

  /** A client with device_del is told last that the device is gone. */
  lemma {:induction false} DelDownClient(t: seq<Client>, n: nat, dev: nat, res: Answers, trace: seq<Event>, k: nat)
    requires k < n <= |t| && Distinct(t) && t[k].callbacks.deviceDel
    ensures Last(trace + DelDown(t, n, dev, res), dev, t[k].handle) == Some(DelCall(dev, t[k].handle, res(k)))
  {
    var h := t[k].handle;
    if t[n - 1].callbacks.deviceDel {
      var e := DelCall(dev, t[n - 1].handle, res(n - 1));
      LastOf(trace, e, dev, h);
      Regroup(trace, e, DelDown(t, n - 1, dev, res));
      if k == n - 1 {
        DelDownOthers(t, n - 1, dev, res, trace + [e], dev, h);
      } else {
        DelDownClient(t, n - 1, dev, res, trace + [e], k);
      }
    } else {
      DelDownClient(t, n - 1, dev, res, trace, k);
      assert [] + DelDown(t, n - 1, dev, res) == DelDown(t, n - 1, dev, res);
    }
  }
}

/**
 What each device operation comes to, told from the slot, the arguments and the
 answers of the clients alone: which calls are made, the status returned, and the
 slot left behind.
 */
module DeviceOutcomes {
  import opened Status
  import opened Clients
  import opened PipeScope
  import opened Devices
  import opened DeviceOrder

  // ---------- rounds of device_add ----------

  /** The client at place i wants device_add and answers with a failure. */
  ghost predicate Refuses(t: seq<Client>, res: Answers, i: nat)
  {
    i < |t| && t[i].callbacks.deviceAdd && res(i) != BF_SUCCESS
  }

  ghost predicate NoneRefuses(t: seq<Client>, res: Answers)
  {
    forall i: nat :: !Refuses(t, res, i)
  }

  ghost predicate FirstToRefuse(t: seq<Client>, res: Answers, i: nat)
  {
    Refuses(t, res, i) && forall k: nat | k < i :: !Refuses(t, res, k)
  }

  /** The places from lo up to hi of clients that want device_add, in ascending order. */
  ghost predicate AddersBetween(t: seq<Client>, places: seq<nat>, lo: nat, hi: nat)
  {
    && hi <= |t|
    && (forall j | 0 <= j < |places| :: lo <= places[j] < hi && t[places[j]].callbacks.deviceAdd)
    && (forall j, k | 0 <= j < k < |places| :: places[j] < places[k])
    && (forall i: nat {:trigger i in places} | lo <= i < hi && t[i].callbacks.deviceAdd :: i in places)
  }

  /** Each call is made to the client of its place and records that client's answer. */
  ghost predicate AddCallsTo(calls: seq<Event>, t: seq<Client>, places: seq<nat>, dev: nat, mode: Mode,
                             profile: Option<Profile>, res: Answers)
  {
    && |calls| == |places| && (forall j | 0 <= j < |places| :: places[j] < |t|)
    && forall j | 0 <= j < |calls| ::
         calls[j] == AddCall(dev, t[places[j]].handle, mode, profile, res(places[j]))
  }

  /** The round from place lo ends before place hi: behind the last client, or at the first
      that refuses. */
  ghost predicate EndsRound(t: seq<Client>, lo: nat, hi: nat, status: Code, res: Answers)
  {
    && lo <= hi <= |t|
    && (if status == BF_SUCCESS
        then hi == |t| && forall k: nat | lo <= k < |t| :: !Refuses(t, res, k)
        else lo < hi && Refuses(t, res, hi - 1) && status == res(hi - 1)
             && forall k: nat | lo <= k < hi - 1 :: !Refuses(t, res, k))
  }

  /** A whole round from place lo on. */
  ghost predicate IsAddRound(calls: seq<Event>, status: Code, t: seq<Client>, places: seq<nat>, lo: nat, hi: nat,
                             dev: nat, mode: Mode, profile: Option<Profile>, res: Answers)
  {
    && EndsRound(t, lo, hi, status, res) && AddersBetween(t, places, lo, hi)
    && AddCallsTo(calls, t, places, dev, mode, profile, res)
  }

  lemma {:induction false} AddRoundOutcome(t: seq<Client>, lo: nat, dev: nat, mode: Mode, profile: Option<Profile>,
                                           res: Answers) returns (places: seq<nat>, hi: nat)
    requires lo <= |t|
    ensures var (calls, status) := AddFrom(t, lo, dev, mode, profile, res);
      IsAddRound(calls, status, t, places, lo, hi, dev, mode, profile, res)
    decreases |t| - lo
  {
    if lo == |t| {
      places, hi := [], lo;
    } else {
      var e := AddCall(dev, t[lo].handle, mode, profile, res(lo));
      if t[lo].callbacks.deviceAdd && res(lo) != BF_SUCCESS {
        places, hi := [lo], lo + 1;
        assert AddFrom(t, lo, dev, mode, profile, res) == ([e], res(lo));
      } else {
        places, hi := AddRoundOutcome(t, lo + 1, dev, mode, profile, res);
        var (calls, status) := AddFrom(t, lo + 1, dev, mode, profile, res);
        RoundGoesOn(calls, status, t, places, lo, hi, dev, mode, profile, res);
        if t[lo].callbacks.deviceAdd {
          places := [lo] + places;
        }
      }
    }
  }

  /** A round goes on behind a client that does not refuse. */
  lemma RoundGoesOn(calls: seq<Event>, status: Code, t: seq<Client>, places: seq<nat>, lo: nat, hi: nat,
                    dev: nat, mode: Mode, profile: Option<Profile>, res: Answers)
    requires lo < |t| && !Refuses(t, res, lo)
    requires IsAddRound(calls, status, t, places, lo + 1, hi, dev, mode, profile, res)
    ensures if t[lo].callbacks.deviceAdd
            then IsAddRound([AddCall(dev, t[lo].handle, mode, profile, res(lo))] + calls, status,
                            t, [lo] + places, lo, hi, dev, mode, profile, res)
            else IsAddRound(calls, status, t, places, lo, hi, dev, mode, profile, res)
  {
    if t[lo].callbacks.deviceAdd {
      AddersCons(t, lo, hi, places);
      CallsCons(calls, t, lo, places, dev, mode, profile, res);
    }
  }

  lemma AddersCons(t: seq<Client>, lo: nat, hi: nat, places: seq<nat>)
    requires lo < hi && AddersBetween(t, places, lo + 1, hi) && t[lo].callbacks.deviceAdd
    ensures AddersBetween(t, [lo] + places, lo, hi)
  {
    var all := [lo] + places;
    assert all[0] == lo && forall j | 1 <= j < |all| :: all[j] == places[j - 1];
    forall i: nat | lo <= i < hi && t[i].callbacks.deviceAdd
      ensures i in all
    {
      assert lo < i ==> i in places;
    }
  }

  lemma CallsCons(calls: seq<Event>, t: seq<Client>, lo: nat, places: seq<nat>, dev: nat, mode: Mode,
                  profile: Option<Profile>, res: Answers)
    requires lo < |t| && AddCallsTo(calls, t, places, dev, mode, profile, res)
    ensures AddCallsTo([AddCall(dev, t[lo].handle, mode, profile, res(lo))] + calls, t, [lo] + places,
                       dev, mode, profile, res)
  {
  }

  // ---------- rounds of device_del ----------

  /** The client at place i wants device_del and answers with a failure. */
  ghost predicate FailsDel(t: seq<Client>, res: Answers, i: nat)
  {
    i < |t| && t[i].callbacks.deviceDel && res(i) != BF_SUCCESS
  }

  ghost predicate NoneFailsDel(t: seq<Client>, res: Answers)
  {
    forall i: nat :: !FailsDel(t, res, i)
  }

  /** The first to fail, as the table is walked from its end. */
  ghost predicate FirstToFailDel(t: seq<Client>, res: Answers, i: nat)
  {
    FailsDel(t, res, i) && forall k: nat | k > i :: !FailsDel(t, res, k)
  }

  /** The places below n of clients that want device_del, in descending order. */
  ghost predicate DeletersBelow(t: seq<Client>, places: seq<nat>, n: nat)
  {
    && n <= |t|
    && (forall j | 0 <= j < |places| :: places[j] < n && t[places[j]].callbacks.deviceDel)
    && (forall j, k | 0 <= j < k < |places| :: places[j] > places[k])
    && (forall i: nat {:trigger i in places} | i < n && t[i].callbacks.deviceDel :: i in places)
  }

  ghost predicate DelCallsTo(calls: seq<Event>, t: seq<Client>, places: seq<nat>, dev: nat, res: Answers)
  {
    && |calls| == |places| && (forall j | 0 <= j < |places| :: places[j] < |t|)
    && forall j | 0 <= j < |calls| :: calls[j] == DelCall(dev, t[places[j]].handle, res(places[j]))
  }

  /** A whole round over the first n places. */
  ghost predicate IsDelRound(calls: seq<Event>, t: seq<Client>, places: seq<nat>, n: nat, dev: nat, res: Answers)
  {
    DeletersBelow(t, places, n) && DelCallsTo(calls, t, places, dev, res)
  }

  lemma {:induction false} DelRoundOutcome(t: seq<Client>, n: nat, dev: nat, res: Answers) returns (places: seq<nat>)
    requires n <= |t|
    ensures IsDelRound(DelDown(t, n, dev, res), t, places, n, dev, res)
  {
    if n == 0 {
      places := [];
    } else {
      var m := n - 1;
      var rest := DelRoundOutcome(t, m, dev, res);
      var calls := DelDown(t, m, dev, res);
      DelRoundGrows(calls, t, rest, m, dev, res);
      DelDownStep(t, n, dev, res);
      if t[m].callbacks.deviceDel {
        places := [m] + rest;
        assert IsDelRound([DelCall(dev, t[m].handle, res(m))] + calls, t, places, n, dev, res);
      } else {
        places := rest;
      }
    }
  }

  lemma DelDownStep(t: seq<Client>, n: nat, dev: nat, res: Answers)
    requires 0 < n <= |t|
    ensures DelDown(t, n, dev, res) ==
      if t[n - 1].callbacks.deviceDel then [DelCall(dev, t[n - 1].handle, res(n - 1))] + DelDown(t, n - 1, dev, res)
      else DelDown(t, n - 1, dev, res)
  {
    assert [] + DelDown(t, n - 1, dev, res) == DelDown(t, n - 1, dev, res);
  }

  lemma DelRoundGrows(calls: seq<Event>, t: seq<Client>, places: seq<nat>, n: nat, dev: nat, res: Answers)
    requires n < |t| && IsDelRound(calls, t, places, n, dev, res)
    ensures if t[n].callbacks.deviceDel
            then IsDelRound([DelCall(dev, t[n].handle, res(n))] + calls, t, [n] + places, n + 1, dev, res)
            else IsDelRound(calls, t, places, n + 1, dev, res)
  {
    if t[n].callbacks.deviceDel {
      DeletersCons(t, n, places);
      DelCallsCons(calls, t, n, places, dev, res);
    }
  }

  lemma DeletersCons(t: seq<Client>, n: nat, places: seq<nat>)
    requires n < |t| && DeletersBelow(t, places, n) && t[n].callbacks.deviceDel
    ensures DeletersBelow(t, [n] + places, n + 1)
  {
    var all := [n] + places;
    assert all[0] == n && forall j | 1 <= j < |all| :: all[j] == places[j - 1];
    forall i: nat | i < n + 1 && t[i].callbacks.deviceDel
      ensures i in all
    {
      assert i < n ==> i in places;
    }
  }

  lemma DelCallsCons(calls: seq<Event>, t: seq<Client>, n: nat, places: seq<nat>, dev: nat, res: Answers)
    requires n < |t| && DelCallsTo(calls, t, places, dev, res)
    ensures DelCallsTo([DelCall(dev, t[n].handle, res(n))] + calls, t, [n] + places, dev, res)
  {
    var e, all := DelCall(dev, t[n].handle, res(n)), [n] + places;
    assert all[0] == n && forall j | 1 <= j < |all| :: all[j] == places[j - 1] && ([e] + calls)[j] == calls[j - 1];
  }

  /** The status of a round is the answer of the first to fail. */
  lemma DelRoundStatus(t: seq<Client>, dev: nat, res: Answers)
    ensures var status := FirstFailure(DelDown(t, |t|, dev, res));
      && (status == BF_SUCCESS <==> NoneFailsDel(t, res))
      && forall i: nat | FirstToFailDel(t, res, i) :: status == res(i)
  {
    var calls := DelDown(t, |t|, dev, res);
    var status := FirstFailure(calls);
    var places := DelRoundOutcome(t, |t|, dev, res);
    FirstFailureIs(calls);
    if status == BF_SUCCESS {
      forall i: nat
        ensures !FailsDel(t, res, i)
      {
        if i < |t| && t[i].callbacks.deviceDel {
          assert i in places;
          var j :| 0 <= j < |places| && places[j] == i;
          assert calls[j].status == res(i);
        }
      }
    } else {
      var j :| 0 <= j < |calls| && calls[j].status == status && FailsFirstAt(calls, j);
      FirstFailingPlace(t, calls, places, j, dev, res);
    }
  }

  lemma FirstFailingPlace(t: seq<Client>, calls: seq<Event>, places: seq<nat>, j: nat, dev: nat, res: Answers)
    requires DeletersBelow(t, places, |t|) && DelCallsTo(calls, t, places, dev, res)
    requires j < |calls| && FailsFirstAt(calls, j)
    ensures FirstToFailDel(t, res, places[j]) && calls[j].status == res(places[j])
    ensures forall i: nat | FirstToFailDel(t, res, i) :: i == places[j]
  {
    var p := places[j];
    forall k: nat | k > p
      ensures !FailsDel(t, res, k)
    {
      if k < |t| && t[k].callbacks.deviceDel {
        assert k in places;
        var m :| 0 <= m < |places| && places[m] == k;
        assert m < j;
        assert calls[m].status == res(k);
      }
    }
    assert FailsDel(t, res, p);
  }

  // ---------- the operations ----------

  ghost predicate OthersKept(w: World, w': World, dev: nat)
  {
    |w'.slots| == |w.slots| && forall d | 0 <= d < |w.slots| && d != dev :: w'.slots[d] == w.slots[d]
  }

  /** The slot names the device; mode and progress are as they were, or those of a new slot. */
  ghost predicate Recorded(slot: Slot, slot': Slot, dev: nat, family: int, isSwModel: bool, done: bool)
  {
    && slot'.Some?
    && slot'.value.devId == dev && slot'.value.family == family && slot'.value.isSwModel == isSwModel
    && slot'.value.numPipes == 1 && slot'.value.addDone == done
    && slot'.value.mode == (if slot.Some? then slot.value.mode else Cold)
    && slot'.value.inProgress == (slot.Some? && slot.value.inProgress)
  }

  /** What bf_device_add leaves and returns: it succeeds exactly when the device is not there
      yet, there is memory, the profile is not refused and no client that wants device_add
      refuses; otherwise it returns the answer of the first that does. */
  lemma AddOutcome(cfg: Config, w: World, dev: nat, family: int, profile: Option<Profile>, isSwModel: bool,
                   alloc: bool, addRes: Answers, delRes: Answers)
    requires dev < |w.slots| && (profile.Some? ==> ProfileFits(profile.value, cfg.numPipes))
    ensures var (w', status) := DoAdd(cfg, w, dev, family, profile, isSwModel, alloc, addRes, delRes);
      var slot, slot' := w.slots[dev], w'.slots[dev];
      && OthersKept(w, w', dev)
      && (Done(slot) ==> status == BF_ALREADY_EXISTS && w' == w)
      && (slot.None? && !alloc ==> status == BF_NO_SYS_RESOURCES && w' == w)
      && (!Done(slot) && (slot.Some? || alloc) && !Attempted(cfg, w, dev, profile, alloc) ==>
            status == BF_INVALID_ARG && w'.trace == w.trace && Recorded(slot, slot', dev, family, isSwModel, false))
      && (Attempted(cfg, w, dev, profile, alloc) ==>
            && (NoneRefuses(cfg.clients, addRes) ==>
                  status == BF_SUCCESS && Recorded(slot, slot', dev, family, isSwModel, true))
            && (!NoneRefuses(cfg.clients, addRes) ==> status != BF_SUCCESS && slot' == None)
            && forall i: nat | FirstToRefuse(cfg.clients, addRes, i) :: status == addRes(i))
  {
    if Attempted(cfg, w, dev, profile, alloc) {
      var t := cfg.clients;
      var mode := if w.slots[dev].Some? then w.slots[dev].value.mode else Cold;
      var local := if profile.Some? then Some(CleanProfile(profile.value, cfg.numPipes)) else None;
      RoundStatus(t, dev, mode, local, addRes);
    }
  }

  lemma RoundStatus(t: seq<Client>, dev: nat, mode: Mode, profile: Option<Profile>, res: Answers)
    ensures var status := AddFrom(t, 0, dev, mode, profile, res).1;
      && (status == BF_SUCCESS <==> NoneRefuses(t, res))
      && forall i: nat | FirstToRefuse(t, res, i) :: status == res(i)
  {
    var places, hi := AddRoundOutcome(t, 0, dev, mode, profile, res);
    var status := AddFrom(t, 0, dev, mode, profile, res).1;
    if status != BF_SUCCESS {
      assert Refuses(t, res, hi - 1);
      forall i: nat | FirstToRefuse(t, res, i)
        ensures i == hi - 1
      {
      }
    }
  }

  /** The calls of an add: to the clients that want device_add, in table order up to the first
      that refuses, and after a refusal to all that want device_del, from the end. Each records
      the answer of its own client. */
  lemma AddCalls(cfg: Config, w: World, dev: nat, family: int, profile: Option<Profile>, isSwModel: bool,
                 alloc: bool, addRes: Answers, delRes: Answers)
    returns (adds: seq<Event>, dels: seq<Event>, addPlaces: seq<nat>, delPlaces: seq<nat>, hi: nat)
    requires dev < |w.slots| && (profile.Some? ==> ProfileFits(profile.value, cfg.numPipes))
    requires Attempted(cfg, w, dev, profile, alloc)
    ensures var (w', status) := DoAdd(cfg, w, dev, family, profile, isSwModel, alloc, addRes, delRes);
      var mode := if w.slots[dev].Some? then w.slots[dev].value.mode else Cold;
      var local := if profile.Some? then Some(CleanProfile(profile.value, cfg.numPipes)) else None;
      && w'.trace == w.trace + adds + dels
      && EndsRound(cfg.clients, 0, hi, status, addRes)
      && AddersBetween(cfg.clients, addPlaces, 0, hi)
      && AddCallsTo(adds, cfg.clients, addPlaces, dev, mode, local, addRes)
      && (if status == BF_SUCCESS then dels == [] else DeletersBelow(cfg.clients, delPlaces, |cfg.clients|))
      && (status != BF_SUCCESS ==> DelCallsTo(dels, cfg.clients, delPlaces, dev, delRes))
  {
    var t := cfg.clients;
    var mode := if w.slots[dev].Some? then w.slots[dev].value.mode else Cold;
    var local := if profile.Some? then Some(CleanProfile(profile.value, cfg.numPipes)) else None;
    adds := AddFrom(t, 0, dev, mode, local, addRes).0;
    addPlaces, hi := AddRoundOutcome(t, 0, dev, mode, local, addRes);
    delPlaces := DelRoundOutcome(t, |t|, dev, delRes);
    dels := if AddFrom(t, 0, dev, mode, local, addRes).1 == BF_SUCCESS then [] else DelDown(t, |t|, dev, delRes);
    assert w.trace + adds + [] == w.trace + adds;
  }

  /** What bf_device_remove does: nothing to an empty slot; otherwise the slot is emptied, and
      every client that wants device_del is called from the end of the table. */
  lemma RemoveOutcome(cfg: Config, w: World, dev: nat, delRes: Answers) returns (calls: seq<Event>, places: seq<nat>)
    requires dev < |w.slots|
    ensures var (w', status) := DoRemove(cfg, w, dev, delRes);
      && OthersKept(w, w', dev) && w'.slots[dev] == None
      && (w.slots[dev].None? ==> status == BF_OBJECT_NOT_FOUND && w' == w)
      && (w.slots[dev].Some? ==>
            && w'.trace == w.trace + calls
            && DeletersBelow(cfg.clients, places, |cfg.clients|)
            && DelCallsTo(calls, cfg.clients, places, dev, delRes)
            && (status == BF_SUCCESS <==> NoneFailsDel(cfg.clients, delRes))
            && forall i: nat | FirstToFailDel(cfg.clients, delRes, i) :: status == delRes(i))
  {
    calls := DelDown(cfg.clients, |cfg.clients|, dev, delRes);
    places := DelRoundOutcome(cfg.clients, |cfg.clients|, dev, delRes);
    DelRoundStatus(cfg.clients, dev, delRes);
  }

  /** The removal that a begin starts with fails. */
  ghost predicate RemovalFails(cfg: Config, slot: Slot, delRes: Answers)
  {
    Done(slot) && !NoneFailsDel(cfg.clients, delRes)
  }

  /** What bf_device_warm_init_begin leaves and returns. Other than in the quick mode: the
      failure of a client and an empty slot, if a complete device has to be removed and some
      client fails on it; lack of memory and an empty slot; or else a new slot of that mode in
      progress. In the quick mode: an occupied slot of that mode in progress and otherwise as
      it was. */
  lemma BeginOutcome(cfg: Config, w: World, dev: nat, mode: Mode, alloc: bool, delRes: Answers)
    requires dev < |w.slots|
    ensures var (w', status) := DoBegin(cfg, w, dev, mode, alloc, delRes);
      var slot, slot' := w.slots[dev], w'.slots[dev];
      && OthersKept(w, w', dev)
      && (mode != FastRecfgQuick ==>
            && (RemovalFails(cfg, slot, delRes) ==>
                  && status != BF_SUCCESS && slot' == None
                  && forall i: nat | FirstToFailDel(cfg.clients, delRes, i) :: status == delRes(i))
            && (!RemovalFails(cfg, slot, delRes) && !alloc ==> status == BF_NO_SYS_RESOURCES && slot' == None)
            && (!RemovalFails(cfg, slot, delRes) && alloc ==>
                  status == BF_SUCCESS && slot' == Some(Asic(dev, 0, false, 0, mode, true, false)))
            && (!Done(slot) ==> w'.trace == w.trace))
      && (mode == FastRecfgQuick ==>
            && w'.trace == w.trace
            && (slot.None? ==> status == BF_INVALID_ARG && slot' == None)
            && (slot.Some? ==>
                  && status == BF_SUCCESS && slot'.Some?
                  && slot'.value.mode == FastRecfgQuick && slot'.value.inProgress
                  && slot'.value.addDone == slot.value.addDone && slot'.value.devId == slot.value.devId
                  && slot'.value.family == slot.value.family && slot'.value.isSwModel == slot.value.isSwModel
                  && slot'.value.numPipes == slot.value.numPipes))
  {
    DelRoundStatus(cfg.clients, dev, delRes);
  }

  /** The calls of a begin are those of the removal, if there is one. */
  lemma BeginCalls(cfg: Config, w: World, dev: nat, mode: Mode, alloc: bool, delRes: Answers)
    returns (calls: seq<Event>, places: seq<nat>)
    requires dev < |w.slots| && mode != FastRecfgQuick && Done(w.slots[dev])
    ensures DoBegin(cfg, w, dev, mode, alloc, delRes).0.trace == w.trace + calls
    ensures DeletersBelow(cfg.clients, places, |cfg.clients|) && DelCallsTo(calls, cfg.clients, places, dev, delRes)
  {
    calls, places := RemoveOutcome(cfg, w, dev, delRes);
  }

  /** What bf_device_warm_init_end does: only a complete device is found, and of it only the
      progress changes, unless its mode is cold. */
  lemma EndOutcome(w: World, dev: nat)
    requires dev < |w.slots|
    ensures var (w', status) := DoEnd(w, dev);
      var slot, slot' := w.slots[dev], w'.slots[dev];
      && OthersKept(w, w', dev) && w'.trace == w.trace
      && (!Done(slot) ==> status == BF_OBJECT_NOT_FOUND && slot' == slot)
      && (Done(slot) ==>
            && status == BF_SUCCESS && Done(slot')
            && slot'.value.inProgress == (slot.value.inProgress && slot.value.mode == Cold)
            && slot'.value.mode == slot.value.mode && slot'.value.devId == slot.value.devId
            && slot'.value.family == slot.value.family && slot'.value.isSwModel == slot.value.isSwModel
            && slot'.value.numPipes == slot.value.numPipes)
  {
  }
}

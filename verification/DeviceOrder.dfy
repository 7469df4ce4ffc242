/** In which order the clients are told, and how a failed device_add is undone. */
module DeviceOrder {
  import opened Status
  import opened Clients
  import opened PipeScope
  import opened Devices
  import opened DeviceRuns

  /** The handles that want device_add, in table order. */
  ghost function Adders(t: seq<Client>): (r: seq<int>)
    ensures |r| <= |t|
  {
    if t == [] then [] else (if t[0].callbacks.deviceAdd then [t[0].handle] else []) + Adders(t[1..])
  }

  /** The handles that want device_del, in table order. */
  ghost function Deleters(t: seq<Client>): (r: seq<int>)
    ensures |r| <= |t|
  {
    if t == [] then [] else (if t[0].callbacks.deviceDel then [t[0].handle] else []) + Deleters(t[1..])
  }

  lemma {:induction false} WantersRegistered(t: seq<Client>)
    ensures forall h | h in Adders(t) || h in Deleters(t) :: Registered(t, h)
  {
    if t != [] {
      WantersRegistered(t[1..]);
      RegisteredLater(t);
      assert Registered(t, t[0].handle);
    }
  }

  lemma RegisteredLater(t: seq<Client>)
    requires t != []
    ensures forall h | Registered(t[1..], h) :: Registered(t, h)
  {
    forall h | Registered(t[1..], h)
      ensures Registered(t, h)
    {
      var i :| 0 <= i < |t[1..]| && t[1..][i].handle == h;
      assert t[i + 1].handle == h;
    }
  }

  ghost function HandlesOf(events: seq<Event>): (r: seq<int>)
    ensures |r| == |events| && forall i | 0 <= i < |r| :: r[i] == events[i].handle
  {
    seq(|events|, i requires 0 <= i < |events| => events[i].handle)
  }

  ghost function Reverse(s: seq<int>): (r: seq<int>)
  {
    if s == [] then [] else Reverse(s[1..]) + [s[0]]
  }

  /** The entries of s that occur in keep. */
  ghost function Among(s: seq<int>, keep: seq<int>): (r: seq<int>)
  {
    if s == [] then [] else (if s[0] in keep then [s[0]] else []) + Among(s[1..], keep)
  }

  lemma {:induction false} AmongAppend(s: seq<int>, x: int, keep: seq<int>)
    ensures Among(s + [x], keep) == Among(s, keep) + (if x in keep then [x] else [])
  {
    if s == [] {
      assert s + [x] == [x];
      assert [x][1..] == [];
    } else {
      AmongAppend(s[1..], x, keep);
      assert (s + [x])[1..] == s[1..] + [x];
    }
  }

  lemma {:induction false} AmongReverse(s: seq<int>, keep: seq<int>)
    ensures Among(Reverse(s), keep) == Reverse(Among(s, keep))
  {
    if s != [] {
      AmongReverse(s[1..], keep);
      AmongAppend(Reverse(s[1..]), s[0], keep);
      var rest := Among(s[1..], keep);
      assert ([s[0]] + rest)[1..] == rest && [] + rest == rest;
    }
  }

  lemma {:induction false} AmongNone(s: seq<int>)
    ensures Among(s, []) == []
  {
    if s != [] {
      AmongNone(s[1..]);
    }
  }

  lemma {:induction false} AmongIgnores(s: seq<int>, x: int, keep: seq<int>)
    requires x !in s
    ensures Among(s, [x] + keep) == Among(s, keep)
  {
    if s != [] {
      AmongIgnores(s[1..], x, keep);
    }
  }

  /** Of paired clients, those told first are exactly the first of those that want device_del. */
  lemma {:induction false} AddersAmongDeleters(t: seq<Client>, n: nat)
    requires Distinct(t) && n <= |Adders(t)| && forall i | 0 <= i < |t| :: Paired(t[i])
    ensures Among(Deleters(t), Adders(t)[..n]) == Adders(t)[..n]
  {
    if t == [] || n == 0 {
      AmongNone(Deleters(t));
    } else {
      var h, rest := t[0].handle, t[1..];
      HeadNotLater(t);
      WantersRegistered(rest);
      assert forall i | 0 <= i < |rest| :: Paired(rest[i]);
      if t[0].callbacks.deviceAdd {
        assert Paired(t[0]);
        var keep := Adders(rest)[..n - 1];
        assert Adders(t)[..n] == [h] + keep;
        AddersAmongDeleters(rest, n - 1);
        AmongIgnores(Deleters(rest), h, keep);
        assert ([h] + Deleters(rest))[1..] == Deleters(rest);
      } else {
        assert Adders(t) == Adders(rest);
        AddersAmongDeleters(rest, n);
        assert h !in Adders(rest)[..n];
        if t[0].callbacks.deviceDel {
          assert ([h] + Deleters(rest))[1..] == Deleters(rest);
        } else {
          assert Deleters(t) == Deleters(rest);
        }
      }
    }
  }

  lemma HeadNotLater(t: seq<Client>)
    requires Distinct(t) && t != []
    ensures Distinct(t[1..]) && !Registered(t[1..], t[0].handle)
  {
    forall i | 0 <= i < |t[1..]|
      ensures t[1..][i].handle != t[0].handle
    {
      assert t[0].handle != t[i + 1].handle;
    }
  }

  /** What a round of device_add looks like. */
  ghost predicate AddRound(events: seq<Event>, status: Code, wanted: seq<int>, dev: nat, mode: Mode,
                           profile: Option<Profile>)
  {
    && |events| <= |wanted| && HandlesOf(events) == wanted[..|events|]
    && (forall i | 0 <= i < |events| ::
          events[i].AddCall? && events[i].dev == dev && events[i].mode == mode && events[i].profile == profile)
    && (forall i | 0 <= i < |events| - 1 :: events[i].status == BF_SUCCESS)
    && (if status == BF_SUCCESS
        then |events| == |wanted| && forall i | 0 <= i < |events| :: events[i].status == BF_SUCCESS
        else |events| >= 1 && events[|events| - 1].status == status)
  }

  lemma {:induction false} AddFromRound(t: seq<Client>, i: nat, dev: nat, mode: Mode, profile: Option<Profile>, res: Answers)
    requires i <= |t|
    ensures var (events, status) := AddFrom(t, i, dev, mode, profile, res);
      AddRound(events, status, Adders(t[i..]), dev, mode, profile)
    decreases |t| - i
  {
    if i < |t| {
      assert t[i..][1..] == t[i + 1..];
      if !t[i].callbacks.deviceAdd {
        AddFromRound(t, i + 1, dev, mode, profile, res);
        assert Adders(t[i..]) == Adders(t[i + 1..]);
      } else if res(i) == BF_SUCCESS {
        AddFromRound(t, i + 1, dev, mode, profile, res);
        var rest := AddFrom(t, i + 1, dev, mode, profile, res);
        var e := AddCall(dev, t[i].handle, mode, profile, BF_SUCCESS);
        RoundCons(e, rest.0, rest.1, Adders(t[i + 1..]), dev, mode, profile);
      } else {
        assert HandlesOf(AddFrom(t, i, dev, mode, profile, res).0) == [t[i].handle] == Adders(t[i..])[..1];
      }
    }
  }

  lemma RoundCons(e: Event, rest: seq<Event>, status: Code, wanted: seq<int>, dev: nat, mode: Mode, profile: Option<Profile>)
    requires AddRound(rest, status, wanted, dev, mode, profile)
    requires e == AddCall(dev, e.handle, mode, profile, BF_SUCCESS)
    ensures AddRound([e] + rest, status, [e.handle] + wanted, dev, mode, profile)
  {
    HandlesCons(e, rest);
  }

  lemma {:induction false} DelDownReverses(t: seq<Client>, n: nat, dev: nat, res: Answers)
    requires n <= |t|
    ensures HandlesOf(DelDown(t, n, dev, res)) == Reverse(Deleters(t[..n]))
  {
    if n > 0 {
      DelDownReverses(t, n - 1, dev, res);
      assert t[..n] == t[..n - 1] + [t[n - 1]];
      DeletersAppend(t[..n - 1], t[n - 1]);
      var rest, wanted := DelDown(t, n - 1, dev, res), Deleters(t[..n - 1]);
      if t[n - 1].callbacks.deviceDel {
        HandlesCons(DelCall(dev, t[n - 1].handle, res(n - 1)), rest);
        ReverseAppend(wanted, [t[n - 1].handle]);
      } else {
        assert [] + rest == rest && wanted + [] == wanted;
      }
    }
  }

  lemma HandlesCons(e: Event, rest: seq<Event>)
    ensures HandlesOf([e] + rest) == [e.handle] + HandlesOf(rest)
  {
  }

  lemma {:induction false} DelDownOnlyDels(t: seq<Client>, n: nat, dev: nat, res: Answers)
    requires n <= |t|
    ensures forall e | e in DelDown(t, n, dev, res) :: e.DelCall? && e.dev == dev
  {
    if n > 0 {
      DelDownOnlyDels(t, n - 1, dev, res);
    }
  }

  lemma Associative(r: seq<int>, s: seq<int>, t: seq<int>)
    ensures (r + s) + t == r + (s + t)
  {
  }

  lemma {:induction false} DeletersAppend(t: seq<Client>, c: Client)
    ensures Deleters(t + [c]) == Deleters(t) + (if c.callbacks.deviceDel then [c.handle] else [])
  {
    if t == [] {
      assert t + [c] == [c] && [c][1..] == [];
    } else {
      var head := if t[0].callbacks.deviceDel then [t[0].handle] else [];
      var last := if c.callbacks.deviceDel then [c.handle] else [];
      assert Deleters(t + [c]) == head + Deleters(t[1..] + [c]) by {
        assert (t + [c])[1..] == t[1..] + [c];
      }
      DeletersAppend(t[1..], c);
      Associative(head, Deleters(t[1..]), last);
    }
  }

  lemma {:induction false} ReverseAppend(s: seq<int>, t: seq<int>)
    requires |t| <= 1
    ensures Reverse(s + t) == t + Reverse(s)
  {
    if s == [] {
      assert s + t == t;
      assert t == [] || t == [t[0]];
    } else {
      ReverseAppend(s[1..], t);
      assert (s + t)[1..] == s[1..] + t;
    }
  }

  // ---------- the operations ----------

  /** A successful bf_device_add records the device and tells every client that wants it,
      in table order, of that device, in its slot's mode and with the cleaned copy of the
      profile. */
  lemma AddTellsInOrder(cfg: Config, w: World, dev: nat, family: int, profile: Option<Profile>, isSwModel: bool,
                        alloc: bool, addRes: Answers, delRes: Answers)
    requires dev < |w.slots| && (profile.Some? ==> ProfileFits(profile.value, cfg.numPipes))
    ensures var (w', status) := DoAdd(cfg, w, dev, family, profile, isSwModel, alloc, addRes, delRes);
      status == BF_SUCCESS ==>
        && Done(w'.slots[dev]) && !Done(w.slots[dev]) && w.trace <= w'.trace
        && w'.slots[dev].value.devId == dev && w'.slots[dev].value.family == family
        && w'.slots[dev].value.isSwModel == isSwModel
        && HandlesOf(w'.trace[|w.trace|..]) == Adders(cfg.clients)
        && forall i | |w.trace| <= i < |w'.trace| ::
             && w'.trace[i].AddCall? && w'.trace[i].status == BF_SUCCESS && w'.trace[i].dev == dev
             && w'.trace[i].mode == (if w.slots[dev].Some? then w.slots[dev].value.mode else Cold)
             && w'.trace[i].profile == if profile.Some? then Some(CleanProfile(profile.value, cfg.numPipes)) else None
  {
    if Attempted(cfg, w, dev, profile, alloc) {
      var slot := w.slots[dev];
      var mode := if slot.Some? then slot.value.mode else Cold;
      var local := if profile.Some? then Some(CleanProfile(profile.value, cfg.numPipes)) else None;
      AddFromRound(cfg.clients, 0, dev, mode, local, addRes);
      assert cfg.clients[0..] == cfg.clients;
      var events := AddFrom(cfg.clients, 0, dev, mode, local, addRes).0;
      assert (w.trace + events)[|w.trace|..] == events;
      assert forall i | |w.trace| <= i < |w.trace + events| :: (w.trace + events)[i] == events[i - |w.trace|];
    }
  }

  /** The slot gets as far as telling the clients. */
  ghost predicate Attempted(cfg: Config, w: World, dev: nat, profile: Option<Profile>, alloc: bool)
    requires dev < |w.slots| && (profile.Some? ==> ProfileFits(profile.value, cfg.numPipes))
  {
    && !Done(w.slots[dev]) && (w.slots[dev].Some? || alloc)
    && !(profile.Some? && ProfileRefused(profile.value, cfg.numPipes))
  }

  /** The calls of a failed round: device_add to the first n clients that want it,
      of which the last fails with the status; then device_del in reverse table
      order, so that those told before are undone in exactly the reverse order. */
  ghost predicate RolledBack(t: seq<Client>, dev: nat, calls: seq<Event>, status: Code, n: nat)
  {
    && 1 <= n <= |calls| && n <= |Adders(t)|
    && HandlesOf(calls[..n]) == Adders(t)[..n]
    && (forall i | 0 <= i < n :: calls[i].AddCall? && calls[i].dev == dev)
    && (forall i | 0 <= i < n - 1 :: calls[i].status == BF_SUCCESS)
    && calls[n - 1].status == status
    && (forall e | e in calls[n..] :: e.DelCall? && e.dev == dev)
    && HandlesOf(calls[n..]) == Reverse(Deleters(t))
    && Among(HandlesOf(calls[n..]), HandlesOf(calls[..n - 1])) == Reverse(HandlesOf(calls[..n - 1]))
  }

  lemma RoundRollsBack(t: seq<Client>, dev: nat, mode: Mode, profile: Option<Profile>, addRes: Answers, delRes: Answers)
    requires AddFrom(t, 0, dev, mode, profile, addRes).1 != BF_SUCCESS
    requires Distinct(t) && forall i | 0 <= i < |t| :: Paired(t[i])
    ensures var (events, status) := AddFrom(t, 0, dev, mode, profile, addRes);
      RolledBack(t, dev, events + DelDown(t, |t|, dev, delRes), status, |events|)
  {
    var (events, status) := AddFrom(t, 0, dev, mode, profile, addRes);
    var dels := DelDown(t, |t|, dev, delRes);
    AddFromRound(t, 0, dev, mode, profile, addRes);
    DelDownReverses(t, |t|, dev, delRes);
    DelDownOnlyDels(t, |t|, dev, delRes);
    assert t[0..] == t && t[..|t|] == t;
    var n, calls := |events|, events + dels;
    assert calls[..n] == events && calls[n..] == dels;
    assert HandlesOf(calls[..n - 1]) == Adders(t)[..n - 1];
    assert Among(Reverse(Deleters(t)), Adders(t)[..n - 1]) == Reverse(Adders(t)[..n - 1]) by {
      AddersAmongDeleters(t, n - 1);
      AmongReverse(Deleters(t), Adders(t)[..n - 1]);
    }
  }

  /** What an attempt comes to, by the outcome of its round of device_add. */
  lemma AttemptOutcome(cfg: Config, w: World, dev: nat, family: int, profile: Option<Profile>, isSwModel: bool,
                       alloc: bool, addRes: Answers, delRes: Answers) returns (mode: Mode, local: Option<Profile>)
    requires dev < |w.slots| && (profile.Some? ==> ProfileFits(profile.value, cfg.numPipes))
    requires Attempted(cfg, w, dev, profile, alloc)
    ensures var (w', status) := DoAdd(cfg, w, dev, family, profile, isSwModel, alloc, addRes, delRes);
      var round := AddFrom(cfg.clients, 0, dev, mode, local, addRes);
      && status == round.1
      && (status != BF_SUCCESS ==>
            && w'.slots == w.slots[dev := None]
            && w'.trace == w.trace + round.0 + DelDown(cfg.clients, |cfg.clients|, dev, delRes))
  {
    mode := if w.slots[dev].Some? then w.slots[dev].value.mode else Cold;
    local := if profile.Some? then Some(CleanProfile(profile.value, cfg.numPipes)) else None;
  }

  lemma SuffixAfter(trace: seq<Event>, events: seq<Event>, more: seq<Event>)
    ensures (trace + events + more)[|trace|..] == events + more
  {
  }

  /** A bf_device_add that fails on a client is rolled back and leaves the slot empty. */
  lemma FailedAddRollsBack(cfg: Config, w: World, dev: nat, family: int, profile: Option<Profile>, isSwModel: bool,
                           alloc: bool, addRes: Answers, delRes: Answers)
    requires dev < |w.slots| && (profile.Some? ==> ProfileFits(profile.value, cfg.numPipes))
    requires Attempted(cfg, w, dev, profile, alloc)
    requires Distinct(cfg.clients) && forall i | 0 <= i < |cfg.clients| :: Paired(cfg.clients[i])
    ensures var (w', status) := DoAdd(cfg, w, dev, family, profile, isSwModel, alloc, addRes, delRes);
      status != BF_SUCCESS ==>
        && w.trace <= w'.trace && w'.slots == w.slots[dev := None]
        && exists n: nat :: RolledBack(cfg.clients, dev, w'.trace[|w.trace|..], status, n)
  {
    var t := cfg.clients;
    var mode, local := AttemptOutcome(cfg, w, dev, family, profile, isSwModel, alloc, addRes, delRes);
    var (events, status) := AddFrom(t, 0, dev, mode, local, addRes);
    if status != BF_SUCCESS {
      RoundRollsBack(t, dev, mode, local, addRes, delRes);
      SuffixAfter(w.trace, events, DelDown(t, |t|, dev, delRes));
    }
  }

  /** The status is that of the first call that failed, or success if none did. */
  ghost predicate IsFirstFailure(calls: seq<Event>, status: Code)
  {
    if status == BF_SUCCESS then forall i | 0 <= i < |calls| :: calls[i].status == BF_SUCCESS
    else exists i :: 0 <= i < |calls| && calls[i].status == status && FailsFirstAt(calls, i)
  }

  ghost predicate FailsFirstAt(calls: seq<Event>, i: nat)
    requires i < |calls|
  {
    calls[i].status != BF_SUCCESS && forall k | 0 <= k < i :: calls[k].status == BF_SUCCESS
  }

  lemma {:induction false} FirstFailureIs(calls: seq<Event>)
    ensures IsFirstFailure(calls, FirstFailure(calls))
  {
    if calls != [] {
      if calls[0].status != BF_SUCCESS {
        assert FailsFirstAt(calls, 0);
      } else {
        FirstFailureIs(calls[1..]);
        assert forall k | 1 <= k < |calls| :: calls[k] == calls[1..][k - 1];
        if FirstFailure(calls) != BF_SUCCESS {
          var i :| 0 <= i < |calls[1..]| && calls[1..][i].status == FirstFailure(calls) && FailsFirstAt(calls[1..], i);
          assert calls[i + 1] == calls[1..][i] && FailsFirstAt(calls, i + 1);
        }
      }
    }
  }

  /** bf_device_remove calls device_del of every client that wants it, in reverse table
      order and for that device, empties the slot whatever they answer, and returns the
      first failure among the answers. */
  lemma RemoveTellsInReverse(cfg: Config, w: World, dev: nat, delRes: Answers)
    requires dev < |w.slots| && w.slots[dev].Some?
    ensures var (w', status) := DoRemove(cfg, w, dev, delRes); var calls := w'.trace[|w.trace|..];
      && w'.slots == w.slots[dev := None] && w.trace <= w'.trace
      && HandlesOf(calls) == Reverse(Deleters(cfg.clients))
      && (forall e | e in calls :: e.DelCall? && e.dev == dev)
      && IsFirstFailure(calls, status)
  {
    var t := cfg.clients;
    var calls := DelDown(t, |t|, dev, delRes);
    DelDownReverses(t, |t|, dev, delRes);
    DelDownOnlyDels(t, |t|, dev, delRes);
    FirstFailureIs(calls);
    assert t[..|t|] == t;
    assert (w.trace + calls)[|w.trace|..] == calls;
  }
}

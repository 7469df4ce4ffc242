/**
 The client registry of src/dvm/dvm_clients.c as a state machine over its three
 operations, and what holds over every run of them.
 */
module Registry {
  import opened Status
  import opened Clients

  const MAX_CLIENTS: nat := 16
  const NAME_LEN: nat := 50

  datatype HandleInfo = HandleInfo(inUse: bool, name: string)

  const FREE := HandleInfo(false, "")

  /** The handle table, the valid clients, the client counter, and, as history, the
      registrations still in force in the order they were made. */
  datatype State = State(handles: seq<HandleInfo>, table: seq<Client>, count: int, live: seq<Client>)

  function Init(): (r: State)
  {
    State(seq(MAX_CLIENTS, _ => FREE), [], 0, [])
  }

  datatype Op =
    | Register(name: string)
    | Deregister(handle: int)
    | RegisterCallbacks(handle: int, callbacks: Option<Callbacks>, priority: int)

  /** What fits into a name buffer. */
  function Fit(name: string): (r: string)
  {
    if |name| < NAME_LEN then name else name[..NAME_LEN - 1]
  }

  /** The first free handle from id on, or the size of the table. */
  function FreeFrom(handles: seq<HandleInfo>, id: nat): (r: nat)
    requires id <= |handles|
    ensures id <= r <= |handles|
    ensures forall k | id <= k < r :: handles[k].inUse
    ensures r < |handles| ==> !handles[r].inUse
    decreases |handles| - id
  {
    if id == |handles| || !handles[id].inUse then id else FreeFrom(handles, id + 1)
  }

  function DoRegister(st: State, name: string): (r: (State, Code, int))
    requires |st.handles| == MAX_CLIENTS
  {
    var id: int := FreeFrom(st.handles, 1);
    if id >= MAX_CLIENTS then (st, BF_MAX_SESSIONS_EXCEEDED, -1)
    else (st.(handles := st.handles[id := HandleInfo(true, Fit(name))], count := st.count + 1), BF_SUCCESS, id)
  }

  function DoDeregister(st: State, h: int): (r: State)
    requires |st.handles| == MAX_CLIENTS && 0 <= h < MAX_CLIENTS
  {
    State(st.handles[h := FREE], RemoveFirst(st.table, h), st.count - 1, Without(st.live, h))
  }

  function DoRegisterCallbacks(st: State, h: int, callbacks: Option<Callbacks>, priority: int): (r: (State, Code))
    requires |st.handles| == MAX_CLIENTS && |st.table| <= MAX_CLIENTS
    requires callbacks.Some? ==> 0 <= h < MAX_CLIENTS
  {
    if callbacks.None? then (st, BF_INVALID_ARG) else
    var i := Scan(st.table, h, priority);
    if i < |st.table| && st.table[i].handle == h then (st, BF_SUCCESS)
    else if i > MAX_CLIENTS - 2 then (st, BF_NO_SYS_RESOURCES)
    else
      var c := Client(true, h, priority, st.handles[h].name, callbacks.value);
      var t := InsertAt(st.table, i, c);
      (st.(table := if |t| > MAX_CLIENTS then t[..MAX_CLIENTS] else t, live := st.live + [c]), BF_SUCCESS)
  }

  /** What the operations assert of their arguments. */
  predicate Legal(st: State, op: Op)
  {
    && |st.handles| == MAX_CLIENTS && |st.table| <= MAX_CLIENTS
    && match op
       case Register(_) => true
       case Deregister(h) => 0 <= h < MAX_CLIENTS
       case RegisterCallbacks(h, callbacks, _) =>
         callbacks.Some? ==> 0 <= h < MAX_CLIENTS && st.handles[h].inUse
  }

  function Step(st: State, op: Op): (r: State)
  {
    if !Legal(st, op) then st else
    match op
    case Register(name) => DoRegister(st, name).0
    case Deregister(h) => DoDeregister(st, h)
    case RegisterCallbacks(h, callbacks, priority) => DoRegisterCallbacks(st, h, callbacks, priority).0
  }

  // ---------- invariants ----------

  function Allocated(handles: seq<HandleInfo>): (n: nat)
  {
    if handles == [] then 0 else (if handles[0].inUse then 1 else 0) + Allocated(handles[1..])
  }

  /** Kept by every legal operation. */
  ghost predicate WellFormed(st: State)
  {
    && |st.handles| == MAX_CLIENTS && !st.handles[0].inUse
    && (forall h | 0 <= h < MAX_CLIENTS && !st.handles[h].inUse :: st.handles[h] == FREE)
    && |st.table| <= MAX_CLIENTS && (forall i | 0 <= i < |st.table| :: st.table[i].valid)
    && SortedDown(st.table)
  }

  /** What the registry is for: every client stands once in the table, in the order
      in which the device manager is to call it, and the counter is right. */
  ghost predicate Inv(st: State)
  {
    && WellFormed(st)
    && Distinct(st.table)
    && (forall i | 0 <= i < |st.table| ::
          1 <= st.table[i].handle < MAX_CLIENTS && st.handles[st.table[i].handle].inUse)
    && IsStableSort(st.live, st.table)
    && st.count == Allocated(st.handles)
  }

  /** A client of priority below p stands before a client of handle h. */
  ghost predicate Shadowed(t: seq<Client>, h: int, p: int)
  {
    exists i, j :: 0 <= i < j < |t| && t[i].priority < p && t[j].handle == h
  }

  /** The calls that the operations accept and that break the invariant: freeing a
      handle that is not allocated, and registering a handle again when a client
      before it in the table has a priority below the new one. */
  ghost predicate Careless(st: State, op: Op)
    requires Legal(st, op)
  {
    match op
    case Register(_) => false
    case Deregister(h) => !st.handles[h].inUse
    case RegisterCallbacks(h, callbacks, priority) =>
      callbacks.Some? && Shadowed(st.table, h, priority)
  }

  lemma {:induction false} AllocatedUpdate(handles: seq<HandleInfo>, h: nat, info: HandleInfo)
    requires h < |handles|
    ensures Allocated(handles[h := info])
         == Allocated(handles) + (if info.inUse then 1 else 0) - (if handles[h].inUse then 1 else 0)
  {
    var s := handles[h := info];
    if h == 0 {
      assert s[1..] == handles[1..];
    } else {
      AllocatedUpdate(handles[1..], h - 1, info);
      assert s[1..] == handles[1..][h - 1 := info];
    }
  }

  lemma {:induction false} AllocatedBound(handles: seq<HandleInfo>)
    ensures Allocated(handles) <= |handles|
    ensures Allocated(handles) == |handles| <==> forall k | 0 <= k < |handles| :: handles[k].inUse
  {
    if handles != [] {
      AllocatedBound(handles[1..]);
      assert forall k | 0 <= k < |handles[1..]| :: handles[1..][k] == handles[k + 1];
      assert (forall k | 0 <= k < |handles| :: handles[k].inUse) ==>
        forall k | 0 <= k < |handles[1..]| :: handles[1..][k].inUse;
      assert (forall k | 0 <= k < |handles[1..]| :: handles[1..][k].inUse) && handles[0].inUse ==>
        forall k | 0 <= k < |handles| :: handles[k].inUse by {
        assert forall k | 1 <= k < |handles| :: handles[k] == handles[1..][k - 1];
      }
    }
  }

  lemma InitInv()
    ensures Inv(Init())
  {
    NoneAllocated(Init().handles);
  }

  lemma {:induction false} NoneAllocated(handles: seq<HandleInfo>)
    requires forall k | 0 <= k < |handles| :: !handles[k].inUse
    ensures Allocated(handles) == 0
  {
    if handles != [] {
      NoneAllocated(handles[1..]);
    }
  }

  /** With distinct handles a client is listed again exactly when the scan stops
      before it at a lower priority. */
  lemma ScanMissesHandle(t: seq<Client>, h: int, p: int)
    requires Distinct(t)
    ensures Shadowed(t, h, p) <==>
            Scan(t, h, p) < |t| && t[Scan(t, h, p)].handle != h && Registered(t, h)
  {
    var i := Scan(t, h, p);
    if k, j :| 0 <= k < j < |t| && t[k].priority < p && t[j].handle == h {
      assert i <= k;
      assert t[i].handle != t[j].handle;
    }
    if i < |t| && t[i].handle != h && Registered(t, h) {
      var j :| 0 <= j < |t| && t[j].handle == h;
      assert i < j;
    }
  }

  // ---------- one step ----------

  lemma RegisterKeepsInv(st: State, name: string)
    requires Inv(st)
    ensures Inv(DoRegister(st, name).0)
  {
    var id := FreeFrom(st.handles, 1);
    if id < MAX_CLIENTS {
      AllocatedUpdate(st.handles, id, HandleInfo(true, Fit(name)));
    }
  }

  lemma DeregisterKeepsInv(st: State, h: int)
    requires Inv(st) && 0 <= h < MAX_CLIENTS && st.handles[h].inUse
    ensures Inv(DoDeregister(st, h))
  {
    var st' := DoDeregister(st, h);
    AllocatedUpdate(st.handles, h, FREE);
    RemoveKeepsSort(st.live, st.table, h);
    RemoveFirstDistinct(st.table, h);
    WithoutDistinct(st.table, h);
    forall i | 0 <= i < |st'.table|
      ensures 1 <= st'.table[i].handle < MAX_CLIENTS && st'.handles[st'.table[i].handle].inUse && st'.table[i].valid
    {
      assert st'.table[i] in Without(st.table, h);
      var j :| 0 <= j < |st.table| && st.table[j] == st'.table[i];
    }
  }

  /** A registration that is not careless finds room, and is a no-op or a new client. */
  lemma RegistrationFindsRoom(st: State, h: int, callbacks: Callbacks, priority: int)
    requires Inv(st) && 0 <= h < MAX_CLIENTS && st.handles[h].inUse
    requires !Careless(st, RegisterCallbacks(h, Some(callbacks), priority))
    ensures DoRegisterCallbacks(st, h, Some(callbacks), priority).1 == BF_SUCCESS
    ensures Registered(st.table, h) ==> DoRegisterCallbacks(st, h, Some(callbacks), priority).0 == st
    ensures !Registered(st.table, h) ==>
      var c := Client(true, h, priority, st.handles[h].name, callbacks);
      && |st.table| < MAX_CLIENTS - 1
      && DoRegisterCallbacks(st, h, Some(callbacks), priority).0
         == st.(table := InsertAt(st.table, Scan(st.table, h, priority), c), live := st.live + [c])
  {
    ScanMissesHandle(st.table, h, priority);
    var i := Scan(st.table, h, priority);
    if Registered(st.table, h) {
      var j :| 0 <= j < |st.table| && st.table[j].handle == h;
      assert i <= j;
    } else {
      RoomForOneMore(st.table, MAX_CLIENTS - 1, h);
    }
  }

  lemma RegisterCallbacksKeepsInv(st: State, h: int, callbacks: Callbacks, priority: int)
    requires Inv(st) && 0 <= h < MAX_CLIENTS && st.handles[h].inUse
    requires !Careless(st, RegisterCallbacks(h, Some(callbacks), priority))
    ensures Inv(DoRegisterCallbacks(st, h, Some(callbacks), priority).0)
  {
    RegistrationFindsRoom(st, h, callbacks, priority);
    if !Registered(st.table, h) {
      var c := Client(true, h, priority, st.handles[h].name, callbacks);
      var i := Scan(st.table, h, priority);
      InsertKeepsSort(st.live, st.table, c);
      InsertMembers(st.table, i, c);
    }
  }

  lemma InsertMembers(t: seq<Client>, i: nat, c: Client)
    requires i <= |t|
    ensures |InsertAt(t, i, c)| == |t| + 1
    ensures forall k | 0 <= k < |t| + 1 ::
      InsertAt(t, i, c)[k] == if k < i then t[k] else if k == i then c else t[k - 1]
    ensures Distinct(t) && !Registered(t, c.handle) ==> Distinct(InsertAt(t, i, c))
  {
  }

  lemma StepKeepsInv(st: State, op: Op)
    requires Inv(st) && Legal(st, op) && !Careless(st, op)
    ensures Inv(Step(st, op))
  {
    match op
    case Register(name) => RegisterKeepsInv(st, name);
    case Deregister(h) => DeregisterKeepsInv(st, h);
    case RegisterCallbacks(h, callbacks, priority) =>
      if callbacks.Some? {
        RegisterCallbacksKeepsInv(st, h, callbacks.value, priority);
      }
  }

  /** A careless call leaves a handle listed twice, or the counter one too low. */
  lemma CarelessBreaksInv(st: State, op: Op)
    requires Inv(st) && Legal(st, op) && Careless(st, op)
    ensures !Inv(Step(st, op))
    ensures op.Deregister? ==> Step(st, op).count == Allocated(Step(st, op).handles) - 1
    ensures op.RegisterCallbacks? ==> !Distinct(Step(st, op).table)
  {
    match op
    case Deregister(h) => AllocatedUpdate(st.handles, h, FREE);
    case RegisterCallbacks(h, callbacks, priority) => ShadowedIsRepeated(st, h, callbacks.value, priority);
  }

  lemma ShadowedIsRepeated(st: State, h: int, callbacks: Callbacks, priority: int)
    requires Inv(st) && 0 <= h < MAX_CLIENTS && Shadowed(st.table, h, priority)
    ensures !Distinct(DoRegisterCallbacks(st, h, Some(callbacks), priority).0.table)
  {
    ScanMissesHandle(st.table, h, priority);
    LastPlaceEmpty(st);
    var i := Scan(st.table, h, priority);
    var c := Client(true, h, priority, st.handles[h].name, callbacks);
    assert |InsertAt(st.table, i, c)| == |st.table| + 1;
    assert DoRegisterCallbacks(st, h, Some(callbacks), priority).0.table == InsertAt(st.table, i, c);
    var j :| 0 <= j < |st.table| && st.table[j].handle == h;
    InsertRepeats(st.table, i, j, c);
  }

  lemma InsertRepeats(t: seq<Client>, i: nat, j: nat, c: Client)
    requires i <= j < |t| && t[j].handle == c.handle
    ensures |InsertAt(t, i, c)| == |t| + 1 && !Distinct(InsertAt(t, i, c))
  {
    InsertMembers(t, i, c);
    assert InsertAt(t, i, c)[i].handle == InsertAt(t, i, c)[j + 1].handle;
  }

  /** Distinct handles from 1 on leave the last place of the table empty. */
  lemma LastPlaceEmpty(st: State)
    requires Inv(st)
    ensures |st.table| <= MAX_CLIENTS - 1
  {
    DistinctCount(st.table);
    SubsetSize(Handles(st.table), UpTo(MAX_CLIENTS - 1));
  }

  // ---------- runs ----------

  ghost function Run(ops: seq<Op>): (r: State)
  {
    if ops == [] then Init() else Step(Run(ops[..|ops| - 1]), ops[|ops| - 1])
  }

  /** Every operation is legal in the state in which it is made. */
  ghost predicate LegalRun(ops: seq<Op>)
  {
    ops == [] || (LegalRun(ops[..|ops| - 1]) && Legal(Run(ops[..|ops| - 1]), ops[|ops| - 1]))
  }

  /** Careless or not, every legal run leaves a sorted table of valid clients. */
  lemma {:induction false} RunWellFormed(ops: seq<Op>)
    requires LegalRun(ops)
    ensures WellFormed(Run(ops))
  {
    if ops == [] {
      InitInv();
    } else {
      var before := ops[..|ops| - 1];
      RunWellFormed(before);
      match ops[|ops| - 1]
      case Register(_) =>
      case Deregister(h) => DeregisterWellFormed(Run(before), h);
      case RegisterCallbacks(h, callbacks, priority) =>
        if callbacks.Some? {
          RegisterCallbacksWellFormed(Run(before), h, callbacks.value, priority);
        }
    }
  }

  lemma DeregisterWellFormed(st: State, h: int)
    requires WellFormed(st) && 0 <= h < MAX_CLIENTS
    ensures WellFormed(DoDeregister(st, h))
  {
    RemoveFirstSorted(st.table, h);
    var t := RemoveFirst(st.table, h);
    forall i | 0 <= i < |t|
      ensures t[i].valid
    {
      assert t[i] in st.table;
    }
  }

  lemma RegisterCallbacksWellFormed(st: State, h: int, callbacks: Callbacks, priority: int)
    requires WellFormed(st) && 0 <= h < MAX_CLIENTS
    ensures WellFormed(DoRegisterCallbacks(st, h, Some(callbacks), priority).0)
  {
    var i := Scan(st.table, h, priority);
    if !(i < |st.table| && st.table[i].handle == h) && i <= MAX_CLIENTS - 2 {
      var c := Client(true, h, priority, st.handles[h].name, callbacks);
      InsertedTable(st.table, i, c);
    }
  }

  lemma InsertedTable(t: seq<Client>, i: nat, c: Client)
    requires SortedDown(t) && i <= |t| && c.valid && forall k | 0 <= k < |t| :: t[k].valid
    requires forall k | 0 <= k < i :: t[k].priority >= c.priority
    requires i < |t| ==> t[i].priority < c.priority
    ensures forall n | 0 <= n <= |t| + 1 ::
      SortedDown(InsertAt(t, i, c)[..n]) && forall k | 0 <= k < n :: InsertAt(t, i, c)[..n][k].valid
    ensures InsertAt(t, i, c) == InsertAt(t, i, c)[..|t| + 1]
  {
    InsertSorted(t, i, c);
    InsertMembers(t, i, c);
    var t' := InsertAt(t, i, c);
    assert forall n, k | 0 <= k < n <= |t'| :: t'[..n][k] == t'[k];
  }

  lemma {:induction false} RemoveFirstSorted(t: seq<Client>, h: int)
    requires SortedDown(t)
    ensures SortedDown(RemoveFirst(t, h))
    ensures |RemoveFirst(t, h)| <= |t| && forall c | c in RemoveFirst(t, h) :: c in t
  {
    if t != [] && t[0].handle != h {
      RemoveFirstSorted(t[1..], h);
      var r := RemoveFirst(t[1..], h);
      forall k | 0 <= k < |r|
        ensures t[0].priority >= r[k].priority
      {
        assert r[k] in t[1..];
      }
    }
  }

  /** No operation of the run is careless. */
  ghost predicate CarefulRun(ops: seq<Op>)
    requires LegalRun(ops)
  {
    ops == [] || (CarefulRun(ops[..|ops| - 1]) && !Careless(Run(ops[..|ops| - 1]), ops[|ops| - 1]))
  }

  /** The invariant holds after every operation of the run. */
  ghost predicate InvThroughout(ops: seq<Op>)
    requires LegalRun(ops)
  {
    Inv(Run(ops)) && (ops == [] || InvThroughout(ops[..|ops| - 1]))
  }

  /** The invariant holds throughout a run exactly when no call of it is careless. */
  lemma {:induction false} InvIffCareful(ops: seq<Op>)
    requires LegalRun(ops)
    ensures InvThroughout(ops) <==> CarefulRun(ops)
  {
    if ops == [] {
      InitInv();
    } else {
      var before, op := ops[..|ops| - 1], ops[|ops| - 1];
      InvIffCareful(before);
      if InvThroughout(before) {
        if Careless(Run(before), op) {
          CarelessBreaksInv(Run(before), op);
        } else {
          StepKeepsInv(Run(before), op);
        }
      }
    }
  }

  // ---------- what each call comes to, whatever the state ----------

  /** A new client gets the least free handle from 1 on, with the first 49 characters of its
      name; it is refused exactly when none of 1 to 15 is free. */
  lemma RegisterOutcome(st: State, name: string)
    requires |st.handles| == MAX_CLIENTS
    ensures var (st', status, h) := DoRegister(st, name);
      && (status == BF_SUCCESS <==> exists k :: 1 <= k < 16 && !st.handles[k].inUse)
      && (status == BF_SUCCESS ==>
            && 1 <= h < 16 && !st.handles[h].inUse && (forall k | 1 <= k < h :: st.handles[k].inUse)
            && |st'.handles| == 16 && st'.handles[h].inUse
            && st'.handles[h].name <= name && |st'.handles[h].name| == (if |name| < 49 then |name| else 49)
            && (forall k | 0 <= k < 16 && k != h :: st'.handles[k] == st.handles[k])
            && st'.count == st.count + 1 && st'.table == st.table)
      && (status != BF_SUCCESS ==> status == BF_MAX_SESSIONS_EXCEEDED && h == -1 && st' == st)
  {
  }

  /** Deregistering frees the handle and takes its first entry, and no other, off the table. */
  lemma DeregisterOutcome(st: State, h: int)
    requires |st.handles| == MAX_CLIENTS && 0 <= h < MAX_CLIENTS
    ensures var st' := DoDeregister(st, h);
      && |st'.handles| == 16 && !st'.handles[h].inUse && st'.handles[h].name == "" && st'.count == st.count - 1
      && (forall k | 0 <= k < 16 && k != h :: st'.handles[k] == st.handles[k])
      && (!Registered(st.table, h) ==> st'.table == st.table)
      && forall i | 0 <= i < |st.table| && st.table[i].handle == h && (forall k | 0 <= k < i :: st.table[k].handle != h) ::
           st'.table == st.table[..i] + st.table[i + 1..]
  {
    if !Registered(st.table, h) {
      RemoveAbsent(st.table, h);
    }
    forall i | 0 <= i < |st.table| && st.table[i].handle == h && (forall k | 0 <= k < i :: st.table[k].handle != h)
      ensures RemoveFirst(st.table, h) == st.table[..i] + st.table[i + 1..]
    {
      RemoveAt(st.table, h, i);
    }
  }

  lemma {:induction false} RemoveAbsent(t: seq<Client>, h: int)
    requires forall k | 0 <= k < |t| :: t[k].handle != h
    ensures RemoveFirst(t, h) == t
  {
    if t != [] {
      RemoveAbsent(t[1..], h);
    }
  }

  lemma {:induction false} RemoveAt(t: seq<Client>, h: int, i: nat)
    requires i < |t| && t[i].handle == h && forall k | 0 <= k < i :: t[k].handle != h
    ensures RemoveFirst(t, h) == t[..i] + t[i + 1..]
  {
    if i > 0 {
      RemoveAt(t[1..], h, i - 1);
      assert t[1..][..i - 1] == t[1..i] && t[1..][i..] == t[i + 1..];
      assert t[..i] == [t[0]] + t[1..i];
    } else {
      assert t[..0] + t[1..] == t[1..];
    }
  }

  /** The scan stops at place i. */
  ghost predicate StopsAt(t: seq<Client>, h: int, priority: int, i: nat)
  {
    && i <= |t| && (forall k | 0 <= k < i :: t[k].handle != h && t[k].priority >= priority)
    && (i < |t| ==> t[i].handle == h || t[i].priority < priority)
  }

  /** Registering callbacks: without any it is refused; where the scan stops at the handle
      itself nothing happens; at the last place there is no room; otherwise the client goes
      there, and what would stand behind the sixteenth place is lost. */
  lemma RegisterCallbacksOutcome(st: State, h: int, callbacks: Option<Callbacks>, priority: int, i: nat)
    requires |st.handles| == MAX_CLIENTS && |st.table| <= MAX_CLIENTS && StopsAt(st.table, h, priority, i)
    requires callbacks.Some? ==> 0 <= h < MAX_CLIENTS
    ensures var (st', status) := DoRegisterCallbacks(st, h, callbacks, priority);
      && st'.handles == st.handles && st'.count == st.count
      && (callbacks.None? ==> status == BF_INVALID_ARG && st' == st)
      && (callbacks.Some? && i < |st.table| && st.table[i].handle == h ==> status == BF_SUCCESS && st' == st)
      && (callbacks.Some? && !(i < |st.table| && st.table[i].handle == h) && i >= 15 ==>
            status == BF_NO_SYS_RESOURCES && st' == st)
      && (callbacks.Some? && !(i < |st.table| && st.table[i].handle == h) && i < 15 ==>
            && status == BF_SUCCESS
            && |st'.table| == (if |st.table| < 16 then |st.table| + 1 else 16)
            && (forall k | 0 <= k < i :: st'.table[k] == st.table[k])
            && st'.table[i] == Client(true, h, priority, st.handles[h].name, callbacks.value)
            && (forall k | i < k < |st'.table| :: st'.table[k] == st.table[k - 1]))
  {
    ScanIs(st.table, h, priority, i);
    if callbacks.Some? {
      InsertMembers(st.table, i, Client(true, h, priority, st.handles[h].name, callbacks.value));
    }
  }

  lemma ScanIs(t: seq<Client>, h: int, priority: int, i: nat)
    requires StopsAt(t, h, priority, i)
    ensures Scan(t, h, priority) == i
  {
  }

  // ---------- two runs that end carelessly ----------

  lemma RunAppend(ops: seq<Op>, op: Op)
    requires LegalRun(ops) && Legal(Run(ops), op)
    ensures LegalRun(ops + [op]) && Run(ops + [op]) == Step(Run(ops), op)
    ensures CarefulRun(ops + [op]) <==> CarefulRun(ops) && !Careless(Run(ops), op)
  {
    assert (ops + [op])[..|ops|] == ops;
  }

  /** Two handles are handed out. */
  lemma TwoHandles() returns (ops: seq<Op>)
    ensures LegalRun(ops) && CarefulRun(ops)
    ensures var st := Run(ops);
      && st.table == [] && |st.handles| == MAX_CLIENTS
      && st.handles[1] == HandleInfo(true, "a") && st.handles[2] == HandleInfo(true, "b")
  {
    RunAppend([], Register("a"));
    var st := Run([] + [Register("a")]);
    assert FreeFrom(Init().handles, 1) == 1;
    RunAppend([] + [Register("a")], Register("b"));
    assert FreeFrom(st.handles, 1) == 2;
    ops := [] + [Register("a")] + [Register("b")];
  }

  /** Registering callbacks behind all clients of a short table. */
  lemma CallbacksAppended(ops: seq<Op>, h: int, callbacks: Callbacks, priority: int) returns (ops': seq<Op>)
    requires LegalRun(ops) && CarefulRun(ops)
    requires var st := Run(ops);
      && |st.handles| == MAX_CLIENTS && |st.table| < MAX_CLIENTS - 1 && 0 <= h < MAX_CLIENTS && st.handles[h].inUse
      && forall k | 0 <= k < |st.table| :: st.table[k].handle != h && st.table[k].priority >= priority
    ensures LegalRun(ops') && CarefulRun(ops')
    ensures var st := Run(ops); var c := Client(true, h, priority, st.handles[h].name, callbacks);
      Run(ops') == st.(table := st.table + [c], live := st.live + [c])
  {
    var st, op := Run(ops), RegisterCallbacks(h, Some(callbacks), priority);
    InsertedLast(st.table, h, priority, Client(true, h, priority, st.handles[h].name, callbacks));
    RunAppend(ops, op);
    ops' := ops + [op];
  }

  lemma InsertedLast(t: seq<Client>, h: int, priority: int, c: Client)
    requires forall k | 0 <= k < |t| :: t[k].handle != h && t[k].priority >= priority
    ensures Scan(t, h, priority) == |t| && InsertAt(t, |t|, c) == t + [c] && !Shadowed(t, h, priority)
  {
  }

  /** Two clients with the same callbacks, the first of priority 1 and the second of 0. */
  lemma TwoClients(callbacks: Callbacks) returns (ops: seq<Op>, a: Client, b: Client)
    ensures LegalRun(ops) && CarefulRun(ops)
    ensures a == Client(true, 1, 1, "a", callbacks) && b == Client(true, 2, 0, "b", callbacks)
    ensures Run(ops).table == [a, b] && Run(ops).handles[2] == HandleInfo(true, "b") && |Run(ops).handles| == MAX_CLIENTS
  {
    a, b := Client(true, 1, 1, "a", callbacks), Client(true, 2, 0, "b", callbacks);
    ops := TwoHandles();
    ops := CallbacksAppended(ops, 1, callbacks, 1);
    assert Run(ops).table == [a];
    ops := CallbacksAppended(ops, 2, callbacks, 0);
  }

  /** Registering the second client once more, with priority 2, lists it twice. */
  lemma RepeatedRegistration(callbacks: Callbacks) returns (ops: seq<Op>, op: Op)
    ensures LegalRun(ops) && CarefulRun(ops) && Legal(Run(ops), op) && Careless(Run(ops), op)
    ensures var t := Step(Run(ops), op).table;
      |t| == 3 && t[0].handle == t[2].handle == 2 && forall k | 0 <= k < 3 :: t[k].callbacks == callbacks
  {
    var a, b;
    ops, a, b := TwoClients(callbacks);
    op := RegisterCallbacks(2, Some(callbacks), 2);
    assert Run(ops).table[0].priority < 2 && Run(ops).table[1].handle == 2;
    assert Scan([a, b], 2, 2) == 0;
  }

  /** Deregistering a handle in the initial state leaves the counter at -1. */
  lemma DeregisteredUnallocated(h: int) returns (ops: seq<Op>)
    requires 0 <= h < MAX_CLIENTS
    ensures LegalRun(ops) && ops == [Deregister(h)] && Run(ops).count == -1 && !CarefulRun(ops)
  {
    RunAppend([], Deregister(h));
    ops := [Deregister(h)];
    assert [] + ops == ops;
  }

  /** After every careful run the table is the one stable sort of the live
      registrations, with fewer entries than places. */
  lemma CarefulRunSortsTable(ops: seq<Op>, t: seq<Client>)
    requires LegalRun(ops) && CarefulRun(ops)
    ensures var st := Run(ops);
      && Inv(st) && |st.table| <= MAX_CLIENTS - 1 && multiset(st.table) == multiset(st.live)
      && (IsStableSort(st.live, t) ==> t == st.table)
  {
    InvIffCareful(ops);
    var st := Run(ops);
    LastPlaceEmpty(st);
    StableSortPermutes(st.live, st.table);
    if IsStableSort(st.live, t) {
      StableSortUnique(st.live, t, st.table);
    }
  }

  /** In a sound state a new client is refused exactly when all fifteen handles are taken. */
  lemma RegisterRefusedIffFull(st: State, name: string)
    requires Inv(st)
    ensures DoRegister(st, name).1 == BF_MAX_SESSIONS_EXCEEDED <==> st.count == MAX_CLIENTS - 1
    ensures 0 <= st.count <= MAX_CLIENTS - 1
  {
    var rest := st.handles[1..];
    AllocatedBound(rest);
    assert forall k | 1 <= k < MAX_CLIENTS :: st.handles[k] == rest[k - 1];
    var id := FreeFrom(st.handles, 1);
    if id < MAX_CLIENTS {
      assert !rest[id - 1].inUse;
    }
  }

  /** Registering a client, then its callbacks, then deregistering it restores the state. */
  lemma DeregisterUndoesRegistration(st: State, name: string, callbacks: Callbacks, priority: int)
    requires Inv(st) && st.count < MAX_CLIENTS - 1
    ensures var (st1, _, h) := DoRegister(st, name);
      && 0 <= h < MAX_CLIENTS && !Registered(st.table, h)
      && DoDeregister(DoRegisterCallbacks(st1, h, Some(callbacks), priority).0, h) == st
  {
    RegisterRefusedIffFull(st, name);
    RegisterKeepsInv(st, name);
    var (st1, _, h) := DoRegister(st, name);
    assert !Registered(st.table, h);
    RegistrationFindsRoom(st1, h, callbacks, priority);
    var c := Client(true, h, priority, st1.handles[h].name, callbacks);
    RemoveInserted(st.table, Scan(st.table, h, priority), c);
    LiveHandles(st);
    forall i | 0 <= i < |st.live|
      ensures st.live[i].handle != h
    {
      assert st.live[i] in st.table;
    }
    WithoutAppended(st.live, c);
    assert st.handles[h := HandleInfo(true, Fit(name))][h := FREE] == st.handles;
  }

  lemma {:induction false} RemoveInserted(t: seq<Client>, i: nat, c: Client)
    requires i <= |t| && !Registered(t, c.handle)
    ensures RemoveFirst(InsertAt(t, i, c), c.handle) == t
  {
    var s := InsertAt(t, i, c);
    if i == 0 {
      assert s[1..] == t;
    } else {
      assert t[0].handle != c.handle;
      assert s[1..] == InsertAt(t[1..], i - 1, c);
      RemoveInserted(t[1..], i - 1, c);
    }
  }

  lemma WithoutAppended(s: seq<Client>, c: Client)
    requires forall i | 0 <= i < |s| :: s[i].handle != c.handle
    ensures Without(s + [c], c.handle) == s
  {
    WithoutAbsent(s, c.handle);
    WithoutAppend(s, c, c.handle);
  }

  lemma {:induction false} WithoutAppend(s: seq<Client>, c: Client, h: int)
    ensures Without(s + [c], h) == Without(s, h) + (if c.handle == h then [] else [c])
  {
    if s == [] {
      assert s + [c] == [c];
      assert [c][1..] == [];
    } else {
      WithoutAppend(s[1..], c, h);
      assert (s + [c])[1..] == s[1..] + [c];
      assert (s + [c])[0] == s[0];
      var head := if s[0].handle == h then [] else [s[0]];
      assert Without(s + [c], h) == head + Without(s[1..] + [c], h);
    }
  }

  /** The live registrations have the handles of the table. */
  lemma LiveHandles(st: State)
    requires Inv(st)
    ensures forall c :: c in st.live <==> c in st.table
  {
    StableSortPermutes(st.live, st.table);
    assert forall c :: c in st.live <==> c in multiset(st.live);
  }
}

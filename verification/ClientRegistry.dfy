/**
 The registry as src/dvm/dvm_clients.c keeps it: two fixed arrays changed in
 place, each operation proved to do a step of the state machine.
 */
module ClientRegistry {
  import opened Status
  import opened Clients
  import opened Registry

  ghost function Empties(n: nat): (r: seq<Client>)
    ensures |r| == n && forall i | 0 <= i < n :: r[i] == EMPTY
  {
    seq(n, _ => EMPTY)
  }

  /** The client array that holds table t: t, then zeroed entries. */
  ghost function Padded(t: seq<Client>): (r: seq<Client>)
    requires |t| <= MAX_CLIENTS
    ensures |r| == MAX_CLIENTS
  {
    t + Empties(MAX_CLIENTS - |t|)
  }

  lemma {:induction false} RemoveFirstAt(t: seq<Client>, h: int, i: nat)
    requires i < |t| && t[i].handle == h && forall k | 0 <= k < i :: t[k].handle != h
    ensures RemoveFirst(t, h) == t[..i] + t[i + 1..]
  {
    if i > 0 {
      RemoveFirstAt(t[1..], h, i - 1);
      assert t[..i] + t[i + 1..] == [t[0]] + (t[1..][..i - 1] + t[1..][i..]);
    }
  }

  lemma {:induction false} RemoveFirstNone(t: seq<Client>, h: int)
    requires forall k | 0 <= k < |t| :: t[k].handle != h
    ensures RemoveFirst(t, h) == t
  {
    if t != [] {
      RemoveFirstNone(t[1..], h);
    }
  }

  lemma {:induction false} ScanAt(t: seq<Client>, h: int, p: int, i: nat)
    requires i <= |t| && forall k | 0 <= k < i :: t[k].handle != h && t[k].priority >= p
    requires i < |t| ==> t[i].handle == h || t[i].priority < p
    ensures Scan(t, h, p) == i
  {
    if i > 0 {
      ScanAt(t[1..], h, p, i - 1);
    }
  }

  lemma {:induction false} FreeFromAt(handles: seq<HandleInfo>, from: nat, id: nat)
    requires from <= id <= |handles| && forall k | from <= k < id :: handles[k].inUse
    requires id < |handles| ==> !handles[id].inUse
    ensures FreeFrom(handles, from) == id
    decreases id - from
  {
    if from < id {
      FreeFromAt(handles, from + 1, id);
    }
  }

  /** Moves the entries after id up by one and zeroes the last. */
  method ShiftUp(a: array<Client>, id: nat)
    requires id < a.Length
    modifies a
    ensures a[..] == old(a[..id]) + old(a[id + 1..]) + [EMPTY]
  {
    var i := id;
    while i < a.Length - 1
      invariant id <= i <= a.Length - 1
      invariant forall k | 0 <= k < a.Length :: a[k] == if id <= k < i then old(a[k + 1]) else old(a[k])
    {
      a[i] := a[i + 1];
      i := i + 1;
    }
    a[a.Length - 1] := EMPTY;
  }

  /** Moves the entries from id on down by one; the last is dropped. */
  method ShiftDown(a: array<Client>, id: nat)
    requires id < a.Length
    modifies a
    ensures forall k | 0 <= k < a.Length :: k != id ==> a[k] == if k < id then old(a[k]) else old(a[k - 1])
  {
    var i := a.Length - 2;
    while i >= id
      invariant id - 1 <= i <= a.Length - 2
      invariant forall k | 0 <= k < a.Length :: a[k] == if k <= i + 1 then old(a[k]) else old(a[k - 1])
    {
      a[i + 1] := a[i];
      i := i - 1;
    }
  }

  class Db {
    var initDone: bool
    var numClients: int
    const hdlInfo: array<HandleInfo>
    const clientDb: array<Client>

    ghost var table: seq<Client>
    ghost var live: seq<Client>

    ghost predicate Valid()
      reads this, hdlInfo, clientDb
    {
      && hdlInfo.Length == clientDb.Length == MAX_CLIENTS
      && |table| <= MAX_CLIENTS && clientDb[..] == Padded(table)
      && (forall i | 0 <= i < |table| :: table[i].valid)
      && (!initDone ==> table == [] && forall i | 0 <= i < MAX_CLIENTS :: hdlInfo[i] == FREE)
    }

    ghost function Abs(): (st: State)
      reads this, hdlInfo
    {
      State(hdlInfo[..], table, numClients, live)
    }

    constructor ()
      ensures Valid() && Abs() == Init()
    {
      initDone := false;
      numClients := 0;
      hdlInfo := new HandleInfo[MAX_CLIENTS](_ => FREE);
      clientDb := new Client[MAX_CLIENTS](_ => EMPTY);
      table, live := [], [];
      new;
      assert clientDb[..] == Padded([]);
      assert hdlInfo[..] == Init().handles;
    }

    method Register(name: string) returns (status: Code, handle: int)
      requires Valid()
      modifies this, hdlInfo, clientDb
      ensures Valid()
      ensures (Abs(), status, handle) == DoRegister(old(Abs()), name)
    {
      if !initDone {
        forall i | 0 <= i < hdlInfo.Length { hdlInfo[i] := FREE; }
        forall i | 0 <= i < clientDb.Length { clientDb[i] := EMPTY; }
        initDone := true;
      }
      assert hdlInfo[..] == old(hdlInfo[..]);
      assert clientDb[..] == old(clientDb[..]);
      var id := 1;
      while id < MAX_CLIENTS && hdlInfo[id].inUse
        invariant 1 <= id <= MAX_CLIENTS
        invariant forall k | 1 <= k < id :: hdlInfo[k].inUse
      {
        id := id + 1;
      }
      FreeFromAt(hdlInfo[..], 1, id);
      if id >= MAX_CLIENTS {
        return BF_MAX_SESSIONS_EXCEEDED, -1;
      }
      hdlInfo[id] := HandleInfo(true, Fit(name));
      numClients := numClients + 1;
      status, handle := BF_SUCCESS, id;
    }

    /** Takes the first entry of handle h out of the client array. */
    method RemoveEntry(h: int)
      requires Valid()
      modifies this`table, clientDb
      ensures Valid() && table == RemoveFirst(old(table), h)
    {
      var id := 0;
      while id < MAX_CLIENTS && !(clientDb[id].valid && clientDb[id].handle == h)
        invariant 0 <= id <= MAX_CLIENTS
        invariant forall k | 0 <= k < id && k < |table| :: table[k].handle != h
      {
        assert clientDb[..][id] == clientDb[id];
        id := id + 1;
      }
      if id < MAX_CLIENTS {
        assert clientDb[..][id] == clientDb[id];
        assert id < |table| && table[id].handle == h;
        RemoveFirstAt(table, h, id);
        ShiftUp(clientDb, id);
        table := RemoveFirst(table, h);
        assert clientDb[..] == Padded(table);
      } else {
        RemoveFirstNone(table, h);
      }
    }

    method Deregister(h: int) returns (status: Code)
      requires Valid() && 0 <= h < MAX_CLIENTS
      modifies this, hdlInfo, clientDb
      ensures Valid() && status == BF_SUCCESS
      ensures Abs() == DoDeregister(old(Abs()), h)
    {
      hdlInfo[h] := FREE;
      numClients := numClients - 1;
      live := Without(live, h);
      RemoveEntry(h);
      status := BF_SUCCESS;
    }

    /** The scan: id is where it stops, found says at the handle, shift at a lower priority. */
    method FindPlace(h: int, priority: int) returns (id: nat, found: bool, shift: bool)
      requires Valid()
      ensures id == Scan(table, h, priority)
      ensures found <==> id < |table| && table[id].handle == h
      ensures shift <==> id < |table| && table[id].handle != h
    {
      id := 0;
      while id < MAX_CLIENTS && clientDb[id].valid
        invariant id <= MAX_CLIENTS && id <= |table|
        invariant forall k | 0 <= k < id :: table[k].handle != h && table[k].priority >= priority
      {
        assert clientDb[..][id] == clientDb[id];
        if clientDb[id].handle == h {
          ScanAt(table, h, priority, id);
          return id, true, false;
        }
        if clientDb[id].priority < priority {
          ScanAt(table, h, priority, id);
          return id, false, true;
        }
        id := id + 1;
      }
      assert id < MAX_CLIENTS ==> clientDb[..][id] == clientDb[id];
      ScanAt(table, h, priority, id);
      found, shift := false, false;
    }

    /** Writes c at id, behind the entries moved out of the way when shift is set. */
    method Insert(id: nat, shift: bool, c: Client)
      requires Valid() && initDone && id < MAX_CLIENTS && id <= |table| && c.valid
      requires shift <==> id < |table|
      modifies this`table, clientDb
      ensures Valid()
      ensures var t := InsertAt(old(table), id, c); table == if |t| > MAX_CLIENTS then t[..MAX_CLIENTS] else t
    {
      if shift {
        ShiftDown(clientDb, id);
      }
      clientDb[id] := c;
      ghost var t := InsertAt(table, id, c);
      InsertMembers(table, id, c);
      table := if |t| > MAX_CLIENTS then t[..MAX_CLIENTS] else t;
      assert clientDb[..] == Padded(table);
    }

    method RegisterCallbacks(h: int, callbacks: Option<Callbacks>, priority: int) returns (status: Code)
      requires Valid()
      requires callbacks.Some? ==> 0 <= h < MAX_CLIENTS && hdlInfo[h].inUse
      modifies this, clientDb
      ensures Valid()
      ensures (Abs(), status) == DoRegisterCallbacks(old(Abs()), h, callbacks, priority)
    {
      if callbacks.None? {
        return BF_INVALID_ARG;
      }
      status := BF_SUCCESS;
      var id, found, shift := FindPlace(h, priority);
      if found {
        return;
      }
      if id > MAX_CLIENTS - 2 {
        return BF_NO_SYS_RESOURCES;
      }
      var c := Client(true, h, priority, hdlInfo[h].name, callbacks.value);
      Insert(id, shift, c);
      live := live + [c];
    }
  }
}

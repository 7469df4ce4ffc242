/**
 The table from port names to device ports: built by nested loops into a map whose
 keys are shifted and or-ed together in 32 bits, and looked up by name.
 */
module PortMap {
  import opened Status
  import opened Arith
  import opened Bits
  import opened PortStrings

  const CONNECTIONS: nat := 64
  const CHANNELS: nat := 5

  /** pm_port_info_map_key_get, in 32-bit arithmetic. */
  function MapKey(conn: nat, chnl: nat): (k: nat)
  {
    Or((conn * 16) % U32, chnl)
  }

  /** Connections 1 to 64 have channels 0 to 4. */
  predicate IsPort(conn: nat, chnl: nat)
  {
    1 <= conn <= CONNECTIONS && chnl < CHANNELS
  }

  /** The device port of a channel of a connection. */
  function PortOf(conn: nat, chnl: nat): (p: nat)
    requires 1 <= conn
  {
    (conn - 1) * 4 + chnl
  }

  /** The table as a whole: keys 16 * conn + chnl for 64 connections of 5 channels. */
  ghost function Table(): (m: map<nat, nat>)
  {
    map key: nat | 16 <= key <= 1028 && key % 16 <= 4 :: PortOf(key / 16, key % 16)
  }

  /** The entries that come before (conn, chnl) in the order in which they are added. */
  function Upto(conn: nat, chnl: nat): (m: map<nat, nat>)
    requires 1 <= conn
    decreases conn, chnl
  {
    if chnl > 0 then Upto(conn, chnl - 1)[16 * conn + (chnl - 1) := PortOf(conn, chnl - 1)]
    else if conn > 1 then Upto(conn - 1, CHANNELS)
    else map[]
  }

  // ---------- keys ----------

  /** The connection that a key stands for: the low 28 bits of the one read, with what the
      channel has beyond its four bits or-ed into it. */
  function KeyConnection(conn: nat, chnl: nat): (c: nat)
  {
    Or(conn % 0x1000_0000, chnl / 16)
  }

  lemma WrappedConnection(conn: nat, chnl: nat)
    requires chnl < 16
    ensures KeyConnection(conn, chnl) == conn % 0x1000_0000 && chnl % 16 == chnl
  {
    OrZero(conn % 0x1000_0000);
  }

  /** For all parts, wrap-around included, the key is a number in base 16. */
  lemma KeyParts(conn: nat, chnl: nat)
    ensures MapKey(conn, chnl) == 16 * KeyConnection(conn, chnl) + chnl % 16
  {
    assert (conn * 16) % U32 == 16 * (conn % 0x1000_0000);
    OrShiftFour(conn % 0x1000_0000, chnl / 16, chnl % 16);
  }

  /** Without wrap-around and with a channel of four bits it is made of the parts themselves. */
  lemma KeyIsSum(conn: nat, chnl: nat)
    requires conn < 0x1000_0000 && chnl < 16
    ensures KeyConnection(conn, chnl) == conn && chnl % 16 == chnl
    ensures MapKey(conn, chnl) == 16 * conn + chnl
  {
    KeyParts(conn, chnl);
    WrappedConnection(conn, chnl);
  }

  lemma PlainKey(conn: nat, chnl: nat)
    requires conn < 0x1000_0000 && chnl < 16
    ensures MapKey(conn, chnl) == 16 * conn + chnl
  {
    KeyIsSum(conn, chnl);
  }

  /** The keys before (conn, chnl) are all smaller than its own, so no key comes twice. */
  lemma {:induction false} UptoKeys(conn: nat, chnl: nat, key: nat)
    requires 1 <= conn && chnl <= CHANNELS
    ensures key in Upto(conn, chnl) <==> 16 <= key < 16 * conn + chnl && key % 16 < CHANNELS
    ensures key in Upto(conn, chnl) ==> Upto(conn, chnl)[key] == PortOf(key / 16, key % 16)
    decreases conn, chnl
  {
    if chnl > 0 {
      UptoKeys(conn, chnl - 1, key);
      DivModUnique(16 * conn + (chnl - 1), 16, conn, chnl - 1);
    } else if conn > 1 {
      UptoKeys(conn - 1, CHANNELS, key);
      GapAbove(conn - 1, key);
    }
  }

  /** Between the last channel of a connection and the next connection lies no key. */
  lemma GapAbove(conn: nat, key: nat)
    ensures 16 * conn + CHANNELS <= key < 16 * (conn + 1) ==> key % 16 >= CHANNELS
  {
    if 16 * conn + CHANNELS <= key < 16 * (conn + 1) {
      DivModUnique(key, 16, conn, key - 16 * conn);
    }
  }

  /** All entries together make up the table. */
  lemma AllEntriesAreTable(conn: nat)
    requires conn == CONNECTIONS + 1
    ensures Upto(conn, 0) == Table()
  {
    forall key: nat
      ensures key in Upto(conn, 0) <==> key in Table()
      ensures key in Table() ==> Upto(conn, 0)[key] == Table()[key]
    {
      UptoKeys(conn, 0, key);
    }
  }

  /** The table holds the keys of the ports, with their device ports, and no other key. */
  lemma InTable(conn: nat, chnl: nat)
    requires chnl < 16
    ensures var key := 16 * conn + chnl;
      && (key in Table() <==> IsPort(conn, chnl))
      && (key in Table() ==> Table()[key] == PortOf(conn, chnl))
  {
    DivModUnique(16 * conn + chnl, 16, conn, chnl);
  }

  // ---------- building the table ----------

  /** An entry can be added: there is memory, and its key is not there yet. */
  predicate CanAdd(m: map<nat, nat>, alloc: (nat, nat) -> bool, conn: nat, chnl: nat)
  {
    alloc(conn, chnl) && 16 * conn + chnl !in m
  }

  predicate Before(c: nat, n: nat, conn: nat, chnl: nat)
  {
    c < conn || (c == conn && n < chnl)
  }

  /** Every entry before (conn, chnl) can be added to m. */
  ghost predicate CanAddBefore(m: map<nat, nat>, alloc: (nat, nat) -> bool, conn: nat, chnl: nat)
  {
    forall c: nat, n: nat | 1 <= c && n < CHANNELS && Before(c, n, conn, chnl) :: CanAdd(m, alloc, c, n)
  }

  lemma CanAddOneMore(m: map<nat, nat>, alloc: (nat, nat) -> bool, conn: nat, chnl: nat)
    requires CanAddBefore(m, alloc, conn, chnl) && CanAdd(m, alloc, conn, chnl)
    ensures CanAddBefore(m, alloc, conn, chnl + 1)
  {
  }

  lemma CanAddNextConnection(m: map<nat, nat>, alloc: (nat, nat) -> bool, conn: nat)
    requires CanAddBefore(m, alloc, conn, CHANNELS)
    ensures CanAddBefore(m, alloc, conn + 1, 0)
  {
  }

  /** What stops the loops at an entry that cannot be added. */
  function Obstacle(alloc: (nat, nat) -> bool, conn: nat, chnl: nat, taken: Code): (r: Code)
  {
    if !alloc(conn, chnl) then BF_NO_SYS_RESOURCES else taken
  }

  /** The next entry is new among the entries, and adding it gives one entry more. */
  lemma NextEntry(was: map<nat, nat>, m: map<nat, nat>, conn: nat, chnl: nat)
    requires 1 <= conn && chnl < CHANNELS && m == was + Upto(conn, chnl)
    ensures 16 * conn + chnl in m <==> 16 * conn + chnl in was
    ensures m[16 * conn + chnl := PortOf(conn, chnl)] == was + Upto(conn, chnl + 1)
  {
    UptoKeys(conn, chnl, 16 * conn + chnl);
  }

  method PortKey(conn: nat, chnl: nat) returns (key: nat)
    requires conn < 0x1000_0000 && chnl < 16
    ensures key == 16 * conn + chnl
  {
    key := MapKey(conn, chnl);
    PlainKey(conn, chnl);
  }

  class PortDb {
    var ports: map<nat, nat>

    /** One round of the inner loop; bf_map_add refuses a key that is there, with status taken. */
    method AddPort(conn: nat, chnl: nat, alloc: (nat, nat) -> bool, taken: Code, ghost was: map<nat, nat>)
      returns (status: Code)
      requires 1 <= conn <= CONNECTIONS && chnl < CHANNELS && taken != BF_SUCCESS
      requires ports == was + Upto(conn, chnl)
      modifies this
      ensures status == if CanAdd(was, alloc, conn, chnl) then BF_SUCCESS else Obstacle(alloc, conn, chnl, taken)
      ensures ports == was + Upto(conn, if CanAdd(was, alloc, conn, chnl) then chnl + 1 else chnl)
    {
      var devPort := (conn - 1) * 4 + chnl;
      if !alloc(conn, chnl) {
        return BF_NO_SYS_RESOURCES;
      }
      var key := PortKey(conn, chnl);
      NextEntry(was, ports, conn, chnl);
      if key in ports {
        return taken;
      }
      ports := ports[key := devPort];
      status := BF_SUCCESS;
    }

    /** The inner loop: the five channels of a connection. */
    method AddConnection(conn: nat, alloc: (nat, nat) -> bool, taken: Code, ghost was: map<nat, nat>)
      returns (status: Code, ghost chnl: nat)
      requires 1 <= conn <= CONNECTIONS && taken != BF_SUCCESS
      requires ports == was + Upto(conn, 0) && CanAddBefore(was, alloc, conn, 0)
      modifies this
      ensures chnl <= CHANNELS && ports == was + Upto(conn, chnl) && CanAddBefore(was, alloc, conn, chnl)
      ensures status == if chnl == CHANNELS then BF_SUCCESS else Obstacle(alloc, conn, chnl, taken)
      ensures chnl < CHANNELS ==> !CanAdd(was, alloc, conn, chnl)
    {
      chnl := 0;
      for n := 0 to CHANNELS
        invariant chnl == n && ports == was + Upto(conn, n) && CanAddBefore(was, alloc, conn, n)
      {
        status := AddPort(conn, n, alloc, taken, was);
        if status != BF_SUCCESS {
          return;
        }
        CanAddOneMore(was, alloc, conn, n);
        chnl := n + 1;
      }
      status := BF_SUCCESS;
    }

    /** The nested loops over connections 1 to 64 and channels 0 to 4: they add the entries
        before the first that cannot be added, or the whole table. */
    method CreatePortInfo(alloc: (nat, nat) -> bool, taken: Code) returns (status: Code, ghost conn: nat, ghost chnl: nat)
      requires taken != BF_SUCCESS
      modifies this
      ensures 1 <= conn <= CONNECTIONS + 1 && ports == old(ports) + Upto(conn, chnl)
      ensures CanAddBefore(old(ports), alloc, conn, chnl)
      ensures conn <= CONNECTIONS ==>
        chnl < CHANNELS && !CanAdd(old(ports), alloc, conn, chnl)
        && status == if !alloc(conn, chnl) then BF_NO_SYS_RESOURCES else taken
      ensures conn > CONNECTIONS ==> status == BF_SUCCESS && ports == old(ports) + Table()
    {
      ghost var was := ports;
      conn, chnl := 1, 0;
      for c := 1 to CONNECTIONS + 1
        invariant conn == c && chnl == 0
        invariant ports == was + Upto(conn, 0) && CanAddBefore(was, alloc, conn, 0)
      {
        status, chnl := AddConnection(c, alloc, taken, was);
        if status != BF_SUCCESS {
          return;
        }
        CanAddNextConnection(was, alloc, c);
        conn, chnl := c + 1, 0;
      }
      AllEntriesAreTable(conn);
      status := BF_SUCCESS;
    }

    /** What a port name resolves to. */
    method StrToDevPort(name: string, alloc: bool) returns (status: Code, devPort: Option<nat>)
      ensures devPort == Resolve(ports, name, alloc)
      ensures status == if devPort.Some? then BF_SUCCESS else BF_UNEXPECTED
    {
      var info := StrToInfo(name, alloc);
      var key := MapKey(info.conn, info.chnl);
      if key in ports {
        return BF_SUCCESS, Some(ports[key]);
      }
      return BF_UNEXPECTED, None;
    }
  }

  function Resolve(ports: map<nat, nat>, name: string, alloc: bool): (r: Option<nat>)
  {
    var info := if alloc then Parse(name) else Info(false, 0, 0);
    var key := MapKey(info.conn, info.chnl);
    if key in ports then Some(ports[key]) else None
  }

  // ---------- what names resolve to ----------

  /** The name of a channel of a connection. */
  function PortName(conn: nat, chnl: nat): (s: string)
  {
    Dec(conn) + "/" + Dec(chnl)
  }

  /** What any name resolves to, in terms of the two numbers read: the port that the key's
      connection and the channel's low four bits make, if they make one. */
  lemma ResolvesIff(name: string, alloc: bool)
    ensures var info := Parse(name); var c, n := KeyConnection(info.conn, info.chnl), info.chnl % 16;
      Resolve(Table(), name, alloc) ==
        if alloc && SlashAt(name) < |name| && IsPort(c, n) then Some(PortOf(c, n)) else None
  {
    var info := Parse(name);
    KeyParts(info.conn, info.chnl);
    InTable(KeyConnection(info.conn, info.chnl), info.chnl % 16);
    KeyIsSum(0, 0);
  }

  /** A part of the name needs more bits than the key has for it. */
  predicate Oversized(info: Info)
  {
    info.conn >= 0x1000_0000 || info.chnl >= 16
  }

  /** The name resolves exactly when its numbers are those of a port, and then to that port. */
  ghost predicate NamesItsPort(name: string)
  {
    var info := Parse(name);
    Resolve(Table(), name, true) == if IsPort(info.conn, info.chnl) then Some(PortOf(info.conn, info.chnl)) else None
  }

  /** Every name does so except exactly those with an oversized part whose key is a port's
      nevertheless; these resolve to that port. */
  lemma NamesItsPortIff(name: string)
    ensures var info := Parse(name);
      NamesItsPort(name) <==>
        !(Oversized(info) && IsPort(KeyConnection(info.conn, info.chnl), info.chnl % 16))
  {
    var info := Parse(name);
    ResolvesIff(name, true);
    if !Oversized(info) {
      KeyIsSum(info.conn, info.chnl);
    }
  }

  /** Two numbers that fit their bits, written as a name, resolve exactly when they are a
      connection from 1 to 64 and a channel from 0 to 4, and then to that device port. */
  lemma NameResolves(c: nat, n: nat)
    requires c < 0x1000_0000 && n < 16
    ensures Resolve(Table(), PortName(c, n), true) == if 1 <= c <= 64 && n <= 4 then Some((c - 1) * 4 + n) else None
  {
    ParseOfName(c, n);
    PartsResolve(PortName(c, n), c, n);
  }

  lemma PartsResolve(name: string, c: nat, n: nat)
    requires Parse(name) == Info(true, c, n) && c < 0x1000_0000 && n < 16
    ensures Resolve(Table(), name, true) == if 1 <= c <= 64 && n <= 4 then Some((c - 1) * 4 + n) else None
  {
    PlainKey(c, n);
    InTable(c, n);
  }

  /** A name without a slash, or with "-" in front of a part, resolves to nothing. */
  lemma BadNameRefused(name: string)
    requires SlashAt(name) == |name|
      || (SlashAt(name) > 0 && name[0] == '-')
      || (SlashAt(name) + 1 < |name| && name[SlashAt(name) + 1] == '-')
    ensures Resolve(Table(), name, true) == None
  {
    ResolvesIff(name, true);
    if SlashAt(name) < |name| {
      AllOnesKey(Parse(name).conn, Parse(name).chnl);
    }
  }

  /** All ones in either part put the key beyond the table, wrap-around included. */
  lemma AllOnesKey(conn: nat, chnl: nat)
    requires conn == U32 - 1 || chnl == U32 - 1
    ensures KeyConnection(conn, chnl) > CONNECTIONS
  {
  }

  lemma OversizedAlias(name: string, conn: nat, chnl: nat)
    requires Parse(name) == Info(true, conn, chnl) && Oversized(Parse(name))
    requires IsPort(KeyConnection(conn, chnl), chnl % 16)
    ensures Resolve(Table(), name, true) == Some(PortOf(KeyConnection(conn, chnl), chnl % 16)) && !NamesItsPort(name)
  {
    ResolvesIff(name, true);
  }

  /** Beyond its bits a connection aliases: every port answers to all names with its
      connection a multiple of 2^28 higher. */
  lemma OversizedConnectionAliases(conn: nat, n: nat)
    requires 0x1000_0000 <= conn < U32 && IsPort(conn % 0x1000_0000, n)
    ensures Resolve(Table(), PortName(conn, n), true) == Some(PortOf(conn % 0x1000_0000, n))
    ensures !NamesItsPort(PortName(conn, n))
  {
    ParseOfName(conn, n);
    WrappedConnection(conn, n);
    OversizedAlias(PortName(conn, n), conn, n);
  }

  /** So does a channel: every port answers to a name with connection 0 and its key as channel. */
  lemma OversizedChannelAliases(c: nat, n: nat)
    requires IsPort(c, n)
    ensures Resolve(Table(), PortName(0, 16 * c + n), true) == Some(PortOf(c, n))
    ensures !NamesItsPort(PortName(0, 16 * c + n))
  {
    var chnl := 16 * c + n;
    ParseOfName(0, chnl);
    ChannelKey(c, n, chnl);
    OversizedAlias(PortName(0, chnl), 0, chnl);
  }

  lemma ChannelKey(c: nat, n: nat, chnl: nat)
    requires n < 16 && chnl == 16 * c + n
    ensures KeyConnection(0, chnl) == c && chnl % 16 == n
  {
    DivModUnique(chnl, 16, c, n);
    OrZeroLeft(c);
  }

  /** Channels 0 to 3 name each of the device ports 0 to 255 exactly once. */
  lemma PortsNamedOnce(p: nat)
    requires p < 256
    ensures exists c: nat, n: nat :: 1 <= c <= CONNECTIONS && n < 4 && PortOf(c, n) == p
    ensures forall c: nat, n: nat, c': nat, n': nat |
      1 <= c && 1 <= c' && n < 4 && n' < 4 && PortOf(c, n) == p && PortOf(c', n') == p :: c == c' && n == n'
  {
    assert PortOf(p / 4 + 1, p % 4) == p;
  }

  /** The last channel names the first port of the next connection once more. */
  lemma FifthChannelAliases(c: nat, n: nat)
    requires 1 <= c < CONNECTIONS && n == CHANNELS - 1
    ensures Resolve(Table(), PortName(c, n), true) == Some(PortOf(c + 1, 0))
  {
    NameResolves(c, n);
  }
}

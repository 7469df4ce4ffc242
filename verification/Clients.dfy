/**
 Driver clients as the registry keeps them, and what it means for the client
 table to be the stable sort, highest priority first, of the live registrations.
 */
module Clients {

  /** Which of the callbacks that the device manager calls are set. */
  datatype Callbacks = Callbacks(deviceAdd: bool, deviceDel: bool)

  datatype Client = Client(valid: bool, handle: int, priority: int, name: string, callbacks: Callbacks)

  const EMPTY := Client(false, 0, 0, "", Callbacks(false, false))

  ghost predicate Distinct(s: seq<Client>)
  {
    forall i, j | 0 <= i < j < |s| :: s[i].handle != s[j].handle
  }

  predicate Registered(s: seq<Client>, h: int)
  {
    exists i :: 0 <= i < |s| && s[i].handle == h
  }

  ghost predicate SortedDown(s: seq<Client>)
  {
    forall i, j | 0 <= i < j < |s| :: s[i].priority >= s[j].priority
  }

  /** The clients of priority p, in order. */
  ghost function OfPriority(s: seq<Client>, p: int): (r: seq<Client>)
  {
    if s == [] then [] else (if s[0].priority == p then [s[0]] else []) + OfPriority(s[1..], p)
  }

  /** t lists the clients of s, highest priority first, and keeps the order of s
      within a priority. */
  ghost predicate IsStableSort(s: seq<Client>, t: seq<Client>)
  {
    SortedDown(t) && forall p :: OfPriority(t, p) == OfPriority(s, p)
  }

  /** s without the clients that have handle h. */
  function Without(s: seq<Client>, h: int): (r: seq<Client>)
  {
    if s == [] then []
    else (if s[0].handle == h then [] else [s[0]]) + Without(s[1..], h)
  }

  /** s without its first client that has handle h. */
  function RemoveFirst(s: seq<Client>, h: int): (r: seq<Client>)
  {
    if s == [] then []
    else if s[0].handle == h then s[1..]
    else [s[0]] + RemoveFirst(s[1..], h)
  }

  /** Where the scan for handle h and priority p stops: at the handle, at a lower
      priority, or behind the last client. */
  function Scan(s: seq<Client>, h: int, p: int): (i: nat)
    ensures i <= |s|
    ensures forall k | 0 <= k < i :: s[k].handle != h && s[k].priority >= p
    ensures i < |s| ==> s[i].handle == h || s[i].priority < p
  {
    if s == [] || s[0].handle == h || s[0].priority < p then 0 else 1 + Scan(s[1..], h, p)
  }

  function InsertAt(s: seq<Client>, i: nat, c: Client): (r: seq<Client>)
    requires i <= |s|
  {
    s[..i] + [c] + s[i..]
  }

  // ---------- the sort is unique and a permutation ----------

  lemma {:induction false} OfPriorityAppend(s: seq<Client>, t: seq<Client>, p: int)
    ensures OfPriority(s + t, p) == OfPriority(s, p) + OfPriority(t, p)
  {
    if s == [] {
      assert s + t == t;
    } else {
      OfPriorityAppend(s[1..], t, p);
      assert (s + t)[1..] == s[1..] + t;
    }
  }

  lemma {:induction false} OfPriorityNone(s: seq<Client>, p: int)
    ensures OfPriority(s, p) == [] <==> forall i | 0 <= i < |s| :: s[i].priority != p
  {
    if s != [] {
      OfPriorityNone(s[1..], p);
    }
  }

  /** A list has at most one stable sort. */
  lemma {:induction false} StableSortUnique(s: seq<Client>, t: seq<Client>, t': seq<Client>)
    requires IsStableSort(s, t) && IsStableSort(s, t')
    ensures t == t'
  {
    SortedByFilters(t, t');
  }

  lemma {:induction false} SortedByFilters(t: seq<Client>, u: seq<Client>)
    requires SortedDown(t) && SortedDown(u)
    requires forall p :: OfPriority(t, p) == OfPriority(u, p)
    ensures t == u
  {
    if t == [] {
      if u != [] {
        SameHead(u, t);
      }
    } else {
      SameHead(t, u);
      forall p
        ensures OfPriority(t[1..], p) == OfPriority(u[1..], p)
      {
        var head := if t[0].priority == p then [t[0]] else [];
        assert OfPriority(t, p) == head + OfPriority(t[1..], p);
        assert OfPriority(u, p) == head + OfPriority(u[1..], p);
        assert OfPriority(t[1..], p) == OfPriority(t, p)[|head|..];
        assert OfPriority(u[1..], p) == OfPriority(u, p)[|head|..];
      }
      SortedByFilters(t[1..], u[1..]);
      assert t == [t[0]] + t[1..] && u == [u[0]] + u[1..];
    }
  }

  lemma SameHead(t: seq<Client>, u: seq<Client>)
    requires SortedDown(t) && SortedDown(u) && t != []
    requires forall p :: OfPriority(t, p) == OfPriority(u, p)
    ensures u != [] && t[0] == u[0]
  {
    var m := t[0].priority;
    OfPriorityNone(t, m);
    assert OfPriority(t, m) == OfPriority(u, m) != [];
    OfPriorityNone(u, m);
    OfPriorityNone(u, u[0].priority);
    assert OfPriority(u, u[0].priority) != [];
    OfPriorityNone(t, u[0].priority);
    assert OfPriority(t, m)[0] == t[0];
    assert OfPriority(u, m)[0] == u[0];
  }

  lemma {:induction false} CountOfPriority(s: seq<Client>, c: Client)
    ensures multiset(s)[c] == multiset(OfPriority(s, c.priority))[c]
  {
    if s != [] {
      CountOfPriority(s[1..], c);
      assert s == [s[0]] + s[1..];
    }
  }

  /** The stable sort lists the same clients, each as often. */
  lemma StableSortPermutes(s: seq<Client>, t: seq<Client>)
    requires IsStableSort(s, t)
    ensures multiset(t) == multiset(s)
  {
    forall c: Client
      ensures multiset(t)[c] == multiset(s)[c]
    {
      CountOfPriority(s, c);
      CountOfPriority(t, c);
      assert OfPriority(t, c.priority) == OfPriority(s, c.priority);
    }
  }

  // ---------- inserting ----------

  /** Inserting where the scan stops at a lower priority or at the end keeps the sort. */
  lemma InsertKeepsSort(s: seq<Client>, t: seq<Client>, c: Client)
    requires IsStableSort(s, t)
    requires var i := Scan(t, c.handle, c.priority); i < |t| ==> t[i].priority < c.priority
    ensures IsStableSort(s + [c], InsertAt(t, Scan(t, c.handle, c.priority), c))
  {
    var i := Scan(t, c.handle, c.priority);
    var t' := InsertAt(t, i, c);
    InsertSorted(t, i, c);
    forall p
      ensures OfPriority(t', p) == OfPriority(s + [c], p)
    {
      assert OfPriority(t, p) == OfPriority(s, p);
      InsertedOfPriority(t, i, c, p);
      OfPriorityAppend(s, [c], p);
    }
  }

  lemma InsertedOfPriority(t: seq<Client>, i: nat, c: Client, p: int)
    requires i <= |t| && forall k | i <= k < |t| :: t[k].priority < c.priority
    ensures OfPriority(InsertAt(t, i, c), p) == OfPriority(t, p) + OfPriority([c], p)
  {
    BetweenOfPriority(t[..i], c, t[i..], p);
    assert t == t[..i] + t[i..];
  }

  lemma BetweenOfPriority(x: seq<Client>, c: Client, y: seq<Client>, p: int)
    requires forall k | 0 <= k < |y| :: y[k].priority < c.priority
    ensures OfPriority(x + [c] + y, p) == OfPriority(x + y, p) + OfPriority([c], p)
  {
    assert OfPriority(x + [c] + y, p) == OfPriority(x, p) + OfPriority([c], p) + OfPriority(y, p) by {
      OfPriorityAppend(x + [c], y, p);
      OfPriorityAppend(x, [c], p);
    }
    assert OfPriority(x + y, p) == OfPriority(x, p) + OfPriority(y, p) by {
      OfPriorityAppend(x, y, p);
    }
    assert OfPriority([c], p) == [] || OfPriority(y, p) == [] by {
      if p == c.priority {
        OfPriorityNone(y, p);
      } else {
        OfPriorityNone([c], p);
      }
    }
    EmptyCommutes(OfPriority(x, p), OfPriority([c], p), OfPriority(y, p));
  }

  lemma EmptyCommutes(x: seq<Client>, y: seq<Client>, z: seq<Client>)
    requires y == [] || z == []
    ensures x + y + z == x + z + y
  {
  }

  lemma InsertSorted(t: seq<Client>, i: nat, c: Client)
    requires SortedDown(t) && i <= |t|
    requires forall k | 0 <= k < i :: t[k].priority >= c.priority
    requires i < |t| ==> t[i].priority < c.priority
    ensures SortedDown(InsertAt(t, i, c))
    ensures forall k | i <= k < |t| :: t[k].priority < c.priority
  {
    assert forall k | i < k < |t| :: t[i].priority >= t[k].priority;
    var t' := InsertAt(t, i, c);
    assert forall k | 0 <= k < i :: t'[k] == t[k];
    assert forall k | i < k < |t'| :: t'[k] == t[k - 1];
  }

  // ---------- removing ----------

  lemma {:induction false} WithoutAbsent(s: seq<Client>, h: int)
    requires forall i | 0 <= i < |s| :: s[i].handle != h
    ensures Without(s, h) == s
  {
    if s != [] {
      WithoutAbsent(s[1..], h);
    }
  }

  lemma {:induction false} RemoveFirstDistinct(s: seq<Client>, h: int)
    requires Distinct(s)
    ensures RemoveFirst(s, h) == Without(s, h)
  {
    if s != [] {
      if s[0].handle == h {
        forall i | 0 <= i < |s[1..]|
          ensures s[1..][i].handle != h
        {
          assert s[0].handle != s[i + 1].handle;
        }
        WithoutAbsent(s[1..], h);
      } else {
        RemoveFirstDistinct(s[1..], h);
      }
    }
  }

  lemma {:induction false} WithoutCommutes(s: seq<Client>, h: int, p: int)
    ensures OfPriority(Without(s, h), p) == Without(OfPriority(s, p), h)
  {
    if s != [] {
      WithoutCommutes(s[1..], h, p);
      var kept, rest := Without(s[1..], h), OfPriority(s[1..], p);
      assert ([s[0]] + kept)[1..] == kept == [] + kept;
      assert ([s[0]] + rest)[1..] == rest == [] + rest;
    }
  }

  /** Without keeps a subsequence: the i-th client kept stands at some place at or after i. */
  lemma {:induction false} WithoutSorted(s: seq<Client>, h: int)
    requires SortedDown(s)
    ensures SortedDown(Without(s, h))
    ensures forall c | c in Without(s, h) :: c in s && c.handle != h
  {
    if s != [] {
      WithoutSorted(s[1..], h);
    }
  }

  lemma {:induction false} WithoutDistinct(s: seq<Client>, h: int)
    requires Distinct(s)
    ensures Distinct(Without(s, h))
    ensures forall c | c in Without(s, h) :: c in s && c.handle != h
    ensures |Without(s, h)| <= |s|
  {
    if s != [] {
      WithoutDistinct(s[1..], h);
    }
  }

  /** Removing a handle from the table and from the registrations keeps the sort. */
  lemma RemoveKeepsSort(s: seq<Client>, t: seq<Client>, h: int)
    requires IsStableSort(s, t) && Distinct(t)
    ensures IsStableSort(Without(s, h), RemoveFirst(t, h))
  {
    RemoveFirstDistinct(t, h);
    WithoutSorted(t, h);
    forall p
      ensures OfPriority(Without(t, h), p) == OfPriority(Without(s, h), p)
    {
      WithoutCommutes(t, h, p);
      WithoutCommutes(s, h, p);
      assert OfPriority(t, p) == OfPriority(s, p);
    }
  }

  // ---------- room ----------

  ghost function Handles(s: seq<Client>): (r: set<int>)
  {
    set i | 0 <= i < |s| :: s[i].handle
  }

  lemma {:induction false} DistinctCount(s: seq<Client>)
    requires Distinct(s)
    ensures |Handles(s)| == |s|
  {
    if s != [] {
      var rest := s[..|s| - 1];
      DistinctCount(rest);
      var last := s[|s| - 1].handle;
      assert last !in Handles(rest);
      assert Handles(s) == Handles(rest) + {last};
    }
  }

  /** The handles from 1 to n. */
  ghost function UpTo(n: nat): (r: set<int>)
    ensures |r| == n && forall h :: h in r <==> 1 <= h <= n
  {
    if n == 0 then {} else UpTo(n - 1) + {n}
  }

  /** Distinct handles from 1 to n, all different from h, fill fewer than n places. */
  lemma RoomForOneMore(s: seq<Client>, n: nat, h: int)
    requires Distinct(s) && 1 <= h <= n && !Registered(s, h)
    requires forall i | 0 <= i < |s| :: 1 <= s[i].handle <= n
    ensures |s| < n
  {
    DistinctCount(s);
    SubsetSize(Handles(s), UpTo(n) - {h});
  }

  lemma SubsetSize(x: set<int>, y: set<int>)
    requires x <= y
    ensures |x| <= |y|
  {
    assert y == x + (y - x);
  }
}

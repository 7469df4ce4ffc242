/**
 The clean-up of a device profile at the start of bf_device_add: each pipeline's
 list of pipes is sorted, cut to the pipes of the device, and checked.
 */
module PipeScope {

  datatype Pipeline = Pipeline(numInScope: int, scope: seq<int>)

  type Profile = seq<seq<Pipeline>>

  /** C's conversion of an int to a 32-bit unsigned value. */
  function AsU32(x: int): (r: nat)
  {
    x % 0x1_0000_0000
  }

  ghost predicate Ascending(s: seq<int>)
  {
    forall i, j | 0 <= i < j < |s| :: s[i] <= s[j]
  }

  function InsertAscending(s: seq<int>, x: int): (r: seq<int>)
  {
    if s == [] || x <= s[0] then [x] + s else [s[0]] + InsertAscending(s[1..], x)
  }

  /** The ascending order of s. */
  function Sort(s: seq<int>): (r: seq<int>)
  {
    if s == [] then [] else InsertAscending(Sort(s[1..]), s[0])
  }

  lemma HeadAndTail(s: seq<int>)
    requires s != []
    ensures multiset(s) == multiset{s[0]} + multiset(s[1..])
  {
    assert s == [s[0]] + s[1..];
  }

  lemma {:induction false} InsertPermutes(s: seq<int>, x: int)
    ensures multiset(InsertAscending(s, x)) == multiset(s) + multiset{x}
    ensures |InsertAscending(s, x)| == |s| + 1
  {
    if s == [] || x <= s[0] {
    } else {
      InsertPermutes(s[1..], x);
      HeadAndTail(s);
    }
  }

  lemma {:induction false} InsertKeepsAscending(s: seq<int>, x: int)
    requires Ascending(s)
    ensures Ascending(InsertAscending(s, x))
    ensures forall y | y in InsertAscending(s, x) :: y == x || y in s
  {
    if s == [] || x <= s[0] {
    } else {
      InsertKeepsAscending(s[1..], x);
      var r := InsertAscending(s[1..], x);
      forall k | 0 <= k < |r|
        ensures s[0] <= r[k]
      {
        assert r[k] in r;
      }
    }
  }

  lemma {:induction false} SortIsSorted(s: seq<int>)
    ensures Ascending(Sort(s)) && multiset(Sort(s)) == multiset(s) && |Sort(s)| == |s|
  {
    if s != [] {
      SortIsSorted(s[1..]);
      InsertKeepsAscending(Sort(s[1..]), s[0]);
      InsertPermutes(Sort(s[1..]), s[0]);
      HeadAndTail(s);
    }
  }

  /** A list has one ascending order. */
  lemma {:induction false} AscendingUnique(s: seq<int>, t: seq<int>)
    requires Ascending(s) && Ascending(t) && multiset(s) == multiset(t)
    ensures s == t
  {
    assert |s| == |multiset(s)| == |multiset(t)| == |t|;
    if s != [] {
      SameLeast(s, t);
      SameTails(s, t);
      AscendingUnique(s[1..], t[1..]);
      assert s == [s[0]] + s[1..] && t == [t[0]] + t[1..];
    }
  }

  lemma SameTails(s: seq<int>, t: seq<int>)
    requires s != [] && t != [] && multiset(s) == multiset(t) && s[0] == t[0]
    ensures multiset(s[1..]) == multiset(t[1..])
  {
    HeadAndTail(s);
    HeadAndTail(t);
    assert multiset(s[1..]) == multiset(s) - multiset{s[0]};
    assert multiset(t[1..]) == multiset(t) - multiset{t[0]};
  }

  lemma SameLeast(s: seq<int>, t: seq<int>)
    requires Ascending(s) && Ascending(t) && s != [] && t != [] && multiset(s) == multiset(t)
    ensures s[0] == t[0]
  {
    assert s[0] in multiset(t) && t[0] in multiset(s);
    assert s[0] in t && t[0] in s;
  }

  method Swap(a: array<int>, i: nat, j: nat)
    requires i < j < a.Length
    modifies a
    ensures a[i] == old(a[j]) && a[j] == old(a[i])
    ensures forall k | 0 <= k < a.Length && k != i && k != j :: a[k] == old(a[k])
    ensures multiset(a[..]) == old(multiset(a[..]))
  {
    a[i], a[j] := a[j], a[i];
  }

  /** One round of the exchange sort: the least of the entries from j on goes to j. */
  method SelectLeast(a: array<int>, j: nat)
    requires j < a.Length && forall i, k | 0 <= i < j <= k < a.Length :: a[i] <= a[k]
    modifies a
    ensures multiset(a[..]) == old(multiset(a[..]))
    ensures forall k | 0 <= k < j :: a[k] == old(a[k])
    ensures forall k | j <= k < a.Length :: a[j] <= a[k]
    ensures forall i, k | 0 <= i < j <= k < a.Length :: a[i] <= a[k]
  {
    for o := j + 1 to a.Length
      invariant multiset(a[..]) == old(multiset(a[..]))
      invariant forall k | 0 <= k < j :: a[k] == old(a[k])
      invariant forall k | j <= k < o :: a[j] <= a[k]
      invariant forall i, k | 0 <= i < j <= k < a.Length :: a[i] <= a[k]
    {
      if a[o] < a[j] {
        Swap(a, j, o);
      }
    }
  }

  /** The exchange sort. */
  method ExchangeSort(a: array<int>)
    modifies a
    ensures a[..] == Sort(old(a[..]))
  {
    for j := 0 to a.Length
      invariant multiset(a[..]) == old(multiset(a[..]))
      invariant forall i, k | 0 <= i < j && i < k < a.Length :: a[i] <= a[k]
    {
      SelectLeast(a, j);
    }
    SortIsSorted(old(a[..]));
    AscendingUnique(a[..], Sort(old(a[..])));
  }

  /** How many entries are kept: as many as asked for, up to the pipes of the device. */
  function Kept(n: int, numPipes: nat): (k: int)
  {
    if AsU32(n) > numPipes then numPipes else n
  }

  function SortedScope(p: Pipeline): (r: seq<int>)
    requires p.numInScope <= |p.scope|
  {
    if p.numInScope <= 0 then p.scope else Sort(p.scope[..p.numInScope]) + p.scope[p.numInScope..]
  }

  lemma SortedScopeSize(p: Pipeline)
    requires p.numInScope <= |p.scope|
    ensures |SortedScope(p)| == |p.scope|
  {
    if p.numInScope > 0 {
      SortIsSorted(p.scope[..p.numInScope]);
    }
  }

  /** The counts stay inside the fixed list of pipes. */
  predicate Fits(p: Pipeline, numPipes: nat)
  {
    p.numInScope <= |p.scope| && (p.numInScope < 0 ==> numPipes <= |p.scope|) && |p.scope| < 0x8000_0000
  }

  ghost predicate BadPipe(scope: seq<int>, kept: int, numPipes: nat)
  {
    exists k :: 0 <= k < kept && k < |scope| && AsU32(scope[k]) >= numPipes
  }

  /** What the clean-up makes of one pipeline. */
  function Clean(p: Pipeline, numPipes: nat): (r: Pipeline)
    requires Fits(p, numPipes)
  {
    Pipeline(Kept(p.numInScope, numPipes), SortedScope(p))
  }

  /** The clean-up finds a kept entry that is no pipe of the device. */
  ghost predicate Refused(p: Pipeline, numPipes: nat)
    requires Fits(p, numPipes)
  {
    BadPipe(SortedScope(p), Kept(p.numInScope, numPipes), numPipes)
  }

  method SanitizePipeline(p: Pipeline, numPipes: nat) returns (r: Pipeline, bad: bool)
    requires Fits(p, numPipes)
    ensures r == Clean(p, numPipes) && (bad <==> Refused(p, numPipes))
  {
    var scope := p.scope;
    if p.numInScope > 0 {
      var a := new int[p.numInScope](i requires 0 <= i < p.numInScope => p.scope[i]);
      assert a[..] == p.scope[..p.numInScope];
      ExchangeSort(a);
      scope := a[..] + p.scope[p.numInScope..];
    }
    SortedScopeSize(p);
    var kept := p.numInScope;
    if AsU32(p.numInScope) > numPipes {
      kept := numPipes;
    }
    bad := false;
    var k := 0;
    while k < kept
      invariant k == 0 || 0 < k <= kept
      invariant bad <==> BadPipe(scope, k, numPipes)
    {
      if AsU32(scope[k]) >= numPipes {
        bad := true;
      }
      assert BadPipe(scope, k + 1, numPipes) <==> BadPipe(scope, k, numPipes) || AsU32(scope[k]) >= numPipes;
      k := k + 1;
    }
    assert kept < 0 ==> !BadPipe(scope, 0, numPipes) && !BadPipe(scope, kept, numPipes);
    r := Pipeline(kept, scope);
  }

  ghost predicate ProgramFits(program: seq<Pipeline>, numPipes: nat)
  {
    forall j | 0 <= j < |program| :: Fits(program[j], numPipes)
  }

  ghost predicate ProgramRefused(program: seq<Pipeline>, numPipes: nat)
    requires ProgramFits(program, numPipes)
  {
    program != [] && (Refused(program[|program| - 1], numPipes) || ProgramRefused(program[..|program| - 1], numPipes))
  }

  ghost function CleanProgram(program: seq<Pipeline>, numPipes: nat): (r: seq<Pipeline>)
    requires ProgramFits(program, numPipes)
    ensures |r| == |program|
  {
    if program == [] then []
    else CleanProgram(program[..|program| - 1], numPipes) + [Clean(program[|program| - 1], numPipes)]
  }

  ghost predicate ProfileFits(profile: Profile, numPipes: nat)
  {
    forall i | 0 <= i < |profile| :: ProgramFits(profile[i], numPipes)
  }

  ghost predicate ProfileRefused(profile: Profile, numPipes: nat)
    requires ProfileFits(profile, numPipes)
  {
    profile != [] &&
    (ProgramRefused(profile[|profile| - 1], numPipes) || ProfileRefused(profile[..|profile| - 1], numPipes))
  }

  ghost function CleanProfile(profile: Profile, numPipes: nat): (r: Profile)
    requires ProfileFits(profile, numPipes)
    ensures |r| == |profile|
  {
    if profile == [] then []
    else CleanProfile(profile[..|profile| - 1], numPipes) + [CleanProgram(profile[|profile| - 1], numPipes)]
  }

  method SanitizeProgram(program: seq<Pipeline>, numPipes: nat) returns (r: seq<Pipeline>, bad: bool)
    requires ProgramFits(program, numPipes)
    ensures r == CleanProgram(program, numPipes) && (bad <==> ProgramRefused(program, numPipes))
  {
    r, bad := [], false;
    for j := 0 to |program|
      invariant r == CleanProgram(program[..j], numPipes)
      invariant bad <==> ProgramRefused(program[..j], numPipes)
    {
      assert program[..j + 1][..j] == program[..j];
      var p, refused := SanitizePipeline(program[j], numPipes);
      r := r + [p];
      bad := bad || refused;
    }
    assert program[..|program|] == program;
  }

  /** The clean-up of a local copy of the profile; bad says that it is refused. */
  method SanitizeProfile(profile: Profile, numPipes: nat) returns (local: Profile, bad: bool)
    requires ProfileFits(profile, numPipes)
    ensures local == CleanProfile(profile, numPipes)
    ensures bad <==> ProfileRefused(profile, numPipes)
  {
    local, bad := [], false;
    for i := 0 to |profile|
      invariant local == CleanProfile(profile[..i], numPipes)
      invariant bad <==> ProfileRefused(profile[..i], numPipes)
    {
      assert profile[..i + 1][..i] == profile[..i];
      var program, refused := SanitizeProgram(profile[i], numPipes);
      local := local + [program];
      bad := bad || refused;
    }
    assert profile[..|profile|] == profile;
  }

  /** The entries kept are the smallest of those asked for, in order. */
  lemma KeptAreSmallest(p: Pipeline, numPipes: nat)
    requires Fits(p, numPipes) && 0 <= p.numInScope
    ensures var r := Clean(p, numPipes);
      && 0 <= r.numInScope <= p.numInScope && r.numInScope <= numPipes && |r.scope| == |p.scope|
      && (r.numInScope == p.numInScope || r.numInScope == numPipes)
      && multiset(r.scope[..p.numInScope]) == multiset(p.scope[..p.numInScope])
      && r.scope[p.numInScope..] == p.scope[p.numInScope..]
      && Ascending(r.scope[..p.numInScope])
      && forall i, j | 0 <= i < r.numInScope <= j < p.numInScope :: r.scope[i] <= r.scope[j]
  {
    var n, r := p.numInScope, Clean(p, numPipes);
    SortedScopeSize(p);
    assert AsU32(n) == n;
    SortIsSorted(p.scope[..n]);
    assert r.scope[..n] == Sort(p.scope[..n]);
    assert forall i | 0 <= i < n :: r.scope[i] == r.scope[..n][i];
  }

  // ---------- what is refused, told from the request ----------

  /** The entries that a pipeline asks for. */
  function Request(p: Pipeline): (r: seq<int>)
    requires p.numInScope <= |p.scope|
  {
    if p.numInScope <= 0 then [] else p.scope[..p.numInScope]
  }

  /** The entry, as 32-bit unsigned, is a pipe of the device. */
  predicate IsPipe(x: int, numPipes: nat)
  {
    AsU32(x) < numPipes
  }

  /** How many of the entries are pipes of the device. */
  function PipeCount(s: seq<int>, numPipes: nat): (n: nat)
    ensures n <= |s|
  {
    if s == [] then 0 else (if IsPipe(s[0], numPipes) then 1 else 0) + PipeCount(s[1..], numPipes)
  }

  /** Some entry is not a pipe of the device. */
  ghost predicate AsksForMissing(s: seq<int>, numPipes: nat)
  {
    exists k :: 0 <= k < |s| && !IsPipe(s[k], numPipes)
  }

  ghost predicate AsksForNegative(s: seq<int>)
  {
    exists k :: 0 <= k < |s| && s[k] < 0
  }

  /** The entries and the count are values of C's int. */
  ghost predicate InInts(p: Pipeline)
  {
    -0x8000_0000 <= p.numInScope && forall k | 0 <= k < |p.scope| :: -0x8000_0000 <= p.scope[k] < 0x8000_0000
  }

  lemma {:induction false} PipeCountAppend(s: seq<int>, t: seq<int>, numPipes: nat)
    ensures PipeCount(s + t, numPipes) == PipeCount(s, numPipes) + PipeCount(t, numPipes)
  {
    if s == [] {
      assert s + t == t;
    } else {
      PipeCountAppend(s[1..], t, numPipes);
      assert (s + t)[1..] == s[1..] + t;
    }
  }

  /** Reordering keeps the count. */
  lemma {:induction false} PipeCountPermutes(s: seq<int>, t: seq<int>, numPipes: nat)
    requires multiset(s) == multiset(t)
    ensures PipeCount(s, numPipes) == PipeCount(t, numPipes)
  {
    if s == [] {
      assert |multiset(t)| == 0;
    } else {
      HeadAndTail(s);
      assert s[0] in multiset(t);
      var k :| 0 <= k < |t| && t[k] == s[0];
      TakeOut(t, k);
      PipeCountPermutes(s[1..], t[..k] + t[k + 1..], numPipes);
      PipeCountTakeOut(t, k, numPipes);
    }
  }

  lemma PipeCountTakeOut(t: seq<int>, k: nat, numPipes: nat)
    requires k < |t|
    ensures PipeCount(t, numPipes)
         == PipeCount(t[..k] + t[k + 1..], numPipes) + (if IsPipe(t[k], numPipes) then 1 else 0)
  {
    PipeCountAppend(t[..k], t[k + 1..], numPipes);
    PipeCountAppend(t[..k], t[k..], numPipes);
    assert t == t[..k] + t[k..] && t[k..][1..] == t[k + 1..];
  }

  lemma TakeOut(t: seq<int>, k: nat)
    requires k < |t|
    ensures multiset(t[..k] + t[k + 1..]) == multiset(t) - multiset{t[k]}
  {
    assert t == t[..k] + [t[k]] + t[k + 1..];
  }

  lemma {:induction false} AllPipesIff(s: seq<int>, numPipes: nat)
    ensures PipeCount(s, numPipes) < |s| <==> AsksForMissing(s, numPipes)
  {
    if s != [] {
      AllPipesIff(s[1..], numPipes);
      assert forall k | 1 <= k < |s| :: s[k] == s[1..][k - 1];
      assert forall k | 0 <= k < |s[1..]| :: s[1..][k] == s[k + 1];
    }
  }

  /** In an ascending list without negative entries the pipes come first. */
  lemma {:induction false} PipesComeFirst(s: seq<int>, numPipes: nat, k: nat)
    requires Ascending(s) && k < |s| && forall i | 0 <= i < |s| :: 0 <= s[i] < 0x8000_0000
    ensures IsPipe(s[k], numPipes) <==> k < PipeCount(s, numPipes)
  {
    if IsPipe(s[0], numPipes) {
      if k > 0 {
        PipesComeFirst(s[1..], numPipes, k - 1);
      }
    } else {
      NoPipesBehind(s, numPipes);
      assert s[0] <= s[k];
    }
  }

  lemma {:induction false} NoPipesBehind(s: seq<int>, numPipes: nat)
    requires forall i | 0 <= i < |s| :: numPipes <= s[i] < 0x8000_0000
    ensures PipeCount(s, numPipes) == 0
  {
    if s != [] {
      NoPipesBehind(s[1..], numPipes);
    }
  }

  /** The check of the kept part of a sorted list, from the list alone. */
  lemma BadPipeInSorted(t: seq<int>, numPipes: nat)
    requires Ascending(t) && |t| < 0x8000_0000 && forall i | 0 <= i < |t| :: -0x8000_0000 <= t[i] < 0x8000_0000
    ensures var v, kept := PipeCount(t, numPipes), if |t| > numPipes then numPipes else |t|;
      BadPipe(t, kept, numPipes) <==> v < |t| && (v < numPipes || (0 < numPipes && AsksForNegative(t)))
  {
    var v := PipeCount(t, numPipes);
    AllPipesIff(t, numPipes);
    if |t| <= numPipes {
      assert AsksForMissing(t, numPipes) <==> BadPipe(t, |t|, numPipes);
    } else if AsksForNegative(t) {
      assert t[0] < 0;
      assert AsU32(t[0]) == t[0] + 0x1_0000_0000;
    } else {
      forall k: nat | k < |t|
        ensures AsU32(t[k]) >= numPipes <==> k >= v
      {
        PipesComeFirst(t, numPipes, k);
      }
      if v < numPipes {
        assert AsU32(t[v]) >= numPipes;
      }
    }
  }

  /** Which requests are refused. With v the number of pipes of the device among the entries
      asked for: when some entry is none and v falls short of the device's pipes, or when one
      is negative and the device has pipes at all. A negative count asks for the first entries
      of the list, as many as the device has pipes. */
  ghost predicate RequestRefused(p: Pipeline, numPipes: nat)
    requires Fits(p, numPipes)
  {
    if p.numInScope < 0 then AsksForMissing(p.scope[..numPipes], numPipes)
    else
      var v := PipeCount(Request(p), numPipes);
      v < p.numInScope && (v < numPipes || (0 < numPipes && AsksForNegative(Request(p))))
  }

  /** The clean-up refuses exactly these requests. */
  lemma RefusedIff(p: Pipeline, numPipes: nat)
    requires Fits(p, numPipes) && InInts(p)
    ensures Refused(p, numPipes) <==> RequestRefused(p, numPipes)
  {
    if p.numInScope < 0 {
      assert AsU32(p.numInScope) == p.numInScope + 0x1_0000_0000;
      var s := p.scope[..numPipes];
      assert BadPipe(p.scope, numPipes, numPipes) <==> AsksForMissing(s, numPipes) by {
        assert forall k | 0 <= k < numPipes :: s[k] == p.scope[k];
      }
    } else {
      SortedRequest(p, numPipes);
    }
  }

  lemma SortedRequest(p: Pipeline, numPipes: nat)
    requires Fits(p, numPipes) && InInts(p) && 0 <= p.numInScope
    ensures Refused(p, numPipes) <==> RequestRefused(p, numPipes)
  {
    var n, s := p.numInScope, Request(p);
    KeptAreSmallest(p, numPipes);
    var t := SortedScope(p)[..n];
    assert s == p.scope[..n] && multiset(t) == multiset(s);
    SameEntries(t, s);
    SameEntries(s, t);
    PipeCountPermutes(s, t, numPipes);
    BadPipeInSorted(t, numPipes);
    KeptOfPrefix(SortedScope(p), n, numPipes);
  }

  lemma KeptOfPrefix(scope: seq<int>, n: nat, numPipes: nat)
    requires n <= |scope| < 0x8000_0000
    ensures Kept(n, numPipes) == if n > numPipes then numPipes else n
    ensures BadPipe(scope, Kept(n, numPipes), numPipes) <==> BadPipe(scope[..n], Kept(n, numPipes), numPipes)
  {
    assert forall k | 0 <= k < n :: scope[..n][k] == scope[k];
  }

  lemma SameEntries(s: seq<int>, t: seq<int>)
    requires multiset(s) == multiset(t)
    ensures forall k | 0 <= k < |s| :: s[k] in t
    ensures AsksForNegative(s) ==> AsksForNegative(t)
  {
    forall k | 0 <= k < |s|
      ensures s[k] in t
    {
      assert s[k] in multiset(t);
    }
  }

  /** The promise: a request is refused exactly when it asks for a pipe that the device lacks. */
  ghost predicate ChecksRequest(p: Pipeline, numPipes: nat)
    requires Fits(p, numPipes)
  {
    Refused(p, numPipes) <==> AsksForMissing(Request(p), numPipes)
  }

  /** A missing pipe goes unnoticed: the cut to the pipes of the device drops it first. */
  ghost predicate CutHidesMissing(p: Pipeline, numPipes: nat)
    requires Fits(p, numPipes)
  {
    && numPipes <= PipeCount(Request(p), numPipes) < p.numInScope
    && (numPipes == 0 || !AsksForNegative(Request(p)))
  }

  /** Nothing is asked for, but a negative count makes the cut ask for the first entries. */
  ghost predicate CutAsksForMissing(p: Pipeline, numPipes: nat)
    requires Fits(p, numPipes)
  {
    p.numInScope < 0 && AsksForMissing(p.scope[..numPipes], numPipes)
  }

  /** The promise is kept for exactly the requests where the cut does neither. */
  lemma ChecksRequestIff(p: Pipeline, numPipes: nat)
    requires Fits(p, numPipes) && InInts(p)
    ensures ChecksRequest(p, numPipes) <==> !CutHidesMissing(p, numPipes) && !CutAsksForMissing(p, numPipes)
  {
    RefusedIff(p, numPipes);
    AllPipesIff(Request(p), numPipes);
  }

  /** Pipes 0, 1 and 7 are asked for, the device has two, and nothing is refused. */
  lemma MissingPipeUnnoticed() returns (p: Pipeline, numPipes: nat)
    ensures p == Pipeline(3, [0, 1, 7]) && numPipes == 2 && Fits(p, numPipes) && InInts(p)
    ensures AsksForMissing(Request(p), numPipes) && !Refused(p, numPipes)
  {
    p, numPipes := Pipeline(3, [0, 1, 7]), 2;
    var s := [0, 1, 7];
    assert Request(p) == s && s[1..] == [1, 7] && [1, 7][1..] == [7] && [7][1..] == [];
    assert PipeCount([7], 2) == 0 && PipeCount([1, 7], 2) == 1 && PipeCount(s, 2) == 2;
    assert !IsPipe(s[2], 2);
    RefusedIff(p, numPipes);
  }

  /** A refused pipeline refuses its program... */
  lemma {:induction false} RefusedInProgram(program: seq<Pipeline>, numPipes: nat, j: nat)
    requires ProgramFits(program, numPipes) && j < |program| && Refused(program[j], numPipes)
    ensures ProgramRefused(program, numPipes)
  {
    if j < |program| - 1 {
      RefusedInProgram(program[..|program| - 1], numPipes, j);
    }
  }

  lemma {:induction false} FindRefused(program: seq<Pipeline>, numPipes: nat) returns (j: nat)
    requires ProgramFits(program, numPipes) && ProgramRefused(program, numPipes)
    ensures j < |program| && Refused(program[j], numPipes)
  {
    if Refused(program[|program| - 1], numPipes) {
      j := |program| - 1;
    } else {
      j := FindRefused(program[..|program| - 1], numPipes);
    }
  }

  /** ...and the whole profile. */
  lemma {:induction false} RefusedInProfile(profile: Profile, numPipes: nat, i: nat, j: nat)
    requires ProfileFits(profile, numPipes) && i < |profile| && j < |profile[i]|
    requires ProgramFits(profile[i], numPipes) && Refused(profile[i][j], numPipes)
    ensures ProfileRefused(profile, numPipes)
  {
    if i < |profile| - 1 {
      RefusedInProfile(profile[..|profile| - 1], numPipes, i, j);
    } else {
      RefusedInProgram(profile[i], numPipes, j);
    }
  }

  /** A profile is only refused for some pipeline that is. */
  lemma {:induction false} FindRefusedInProfile(profile: Profile, numPipes: nat) returns (i: nat, j: nat)
    requires ProfileFits(profile, numPipes) && ProfileRefused(profile, numPipes)
    ensures i < |profile| && j < |profile[i]| && ProgramFits(profile[i], numPipes) && Refused(profile[i][j], numPipes)
  {
    if ProgramRefused(profile[|profile| - 1], numPipes) {
      i := |profile| - 1;
      j := FindRefused(profile[i], numPipes);
    } else {
      i, j := FindRefusedInProfile(profile[..|profile| - 1], numPipes);
    }
  }

  /** A profile is refused exactly when one of its pipelines makes such a request. */
  lemma ProfileRefusedIff(profile: Profile, numPipes: nat)
    requires ProfileFits(profile, numPipes)
    requires forall i, j | 0 <= i < |profile| && 0 <= j < |profile[i]| :: InInts(profile[i][j])
    ensures ProfileRefused(profile, numPipes) <==>
      exists i, j :: 0 <= i < |profile| && 0 <= j < |profile[i]|
        && Fits(profile[i][j], numPipes) && RequestRefused(profile[i][j], numPipes)
  {
    if ProfileRefused(profile, numPipes) {
      var i, j := FindRefusedInProfile(profile, numPipes);
      RefusedIff(profile[i][j], numPipes);
    }
    forall i, j | 0 <= i < |profile| && 0 <= j < |profile[i]| && Fits(profile[i][j], numPipes)
                  && RequestRefused(profile[i][j], numPipes)
      ensures ProfileRefused(profile, numPipes)
    {
      RefusedIff(profile[i][j], numPipes);
      RefusedInProfile(profile, numPipes, i, j);
    }
  }

  // ---------- what the clients are handed ----------

  /** What becomes of one pipeline: the entries asked for in ascending order, the rest of the
      list as it was, and the count cut to the pipes of the device. On a negative count the
      list stays and the count is that of the device's pipes. */
  ghost predicate CleansTo(p: Pipeline, r: Pipeline, numPipes: nat)
  {
    && |r.scope| == |p.scope| && p.numInScope <= |p.scope|
    && (0 <= p.numInScope ==>
          && r.numInScope == (if p.numInScope < numPipes then p.numInScope else numPipes)
          && Ascending(r.scope[..p.numInScope])
          && multiset(r.scope[..p.numInScope]) == multiset(p.scope[..p.numInScope])
          && r.scope[p.numInScope..] == p.scope[p.numInScope..])
    && (p.numInScope < 0 ==> r.numInScope == numPipes && r.scope == p.scope)
  }

  lemma CleanIs(p: Pipeline, numPipes: nat)
    requires Fits(p, numPipes) && -0x8000_0000 <= p.numInScope
    ensures CleansTo(p, Clean(p, numPipes), numPipes)
  {
    if 0 <= p.numInScope {
      KeptAreSmallest(p, numPipes);
    } else {
      assert AsU32(p.numInScope) == p.numInScope + 0x1_0000_0000;
    }
  }

  lemma {:induction false} CleanProgramAt(program: seq<Pipeline>, numPipes: nat, j: nat)
    requires ProgramFits(program, numPipes) && j < |program|
    ensures CleanProgram(program, numPipes)[j] == Clean(program[j], numPipes)
  {
    if j < |program| - 1 {
      CleanProgramAt(program[..|program| - 1], numPipes, j);
    }
  }

  lemma {:induction false} CleanProfileAt(profile: Profile, numPipes: nat, i: nat)
    requires ProfileFits(profile, numPipes) && i < |profile|
    ensures CleanProfile(profile, numPipes)[i] == CleanProgram(profile[i], numPipes)
  {
    if i < |profile| - 1 {
      CleanProfileAt(profile[..|profile| - 1], numPipes, i);
    }
  }

  /** The cleaned profile has the programs and pipelines of the profile, each cleaned in its
      own place. */
  lemma CleanProfileHolds(profile: Profile, numPipes: nat, i: nat, j: nat)
    requires ProfileFits(profile, numPipes) && i < |profile| && j < |profile[i]|
    requires -0x8000_0000 <= profile[i][j].numInScope
    ensures var r := CleanProfile(profile, numPipes);
      && |r| == |profile| && |r[i]| == |profile[i]|
      && CleansTo(profile[i][j], r[i][j], numPipes)
  {
    CleanProfileAt(profile, numPipes, i);
    CleanProgramAt(profile[i], numPipes, j);
    CleanIs(profile[i][j], numPipes);
  }

  lemma {:induction false} NoPipesProgram(program: seq<Pipeline>)
    requires ProgramFits(program, 0) && forall j | 0 <= j < |program| :: -0x8000_0000 <= program[j].numInScope
    ensures !ProgramRefused(program, 0)
    ensures forall p | p in CleanProgram(program, 0) :: p.numInScope == 0
  {
    if program != [] {
      var last := program[|program| - 1];
      NoPipesProgram(program[..|program| - 1]);
      assert Kept(last.numInScope, 0) == 0;
    }
  }

  /** With a pipe count of zero, as bf_device_add has it, no profile is refused and
      no pipeline is left a pipe in scope. */
  lemma {:induction false} NoPipesNoRefusal(profile: Profile)
    requires ProfileFits(profile, 0)
    requires forall i, j | 0 <= i < |profile| && 0 <= j < |profile[i]| :: -0x8000_0000 <= profile[i][j].numInScope
    ensures !ProfileRefused(profile, 0)
    ensures forall program, p | program in CleanProfile(profile, 0) && p in program :: p.numInScope == 0
  {
    if profile != [] {
      NoPipesNoRefusal(profile[..|profile| - 1]);
      NoPipesProgram(profile[|profile| - 1]);
    }
  }
}

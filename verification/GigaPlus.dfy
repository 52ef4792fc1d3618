/**
  The GIGA+ directory index of src/gigaplus.cc.  A directory is spread over partitions;
  partition i holds the names whose hash ends, in its low bits, with i.  A full partition
  splits: its child takes the names whose next hash bit is 1.
 */
module GigaIndex {
  import opened Binary

  const MAX_RADIX: nat := 16

  /** The k low bits of a number. */
  function Low(h: nat, k: nat): nat
    decreases k
  {
    if k == 0 then 0 else h % 2 + 2 * Low(h / 2, k - 1)
  }

  lemma {:induction false} LowBound(h: nat, k: nat)
    ensures Low(h, k) < Pow2(k)
    decreases k
  {
    if k > 0 { LowBound(h / 2, k - 1); }
  }

  lemma {:induction false} LowOfSmall(h: nat, k: nat)
    requires h < Pow2(k)
    ensures Low(h, k) == h
    decreases k
  {
    if k > 0 { LowOfSmall(h / 2, k - 1); }
  }

  lemma {:induction false} LowOfLow(h: nat, j: nat, k: nat)
    requires j <= k
    ensures Low(Low(h, k), j) == Low(h, j)
    decreases j
  {
    if j > 0 {
      assert Low(h, k) % 2 == h % 2 && Low(h, k) / 2 == Low(h / 2, k - 1);
      LowOfLow(h / 2, j - 1, k - 1);
    }
  }

  /** One more bit adds nothing, or the next power of two. */
  lemma {:induction false} LowNext(h: nat, k: nat)
    ensures Low(h, k + 1) == Low(h, k) || Low(h, k + 1) == Low(h, k) + Pow2(k)
    decreases k
  {
    if k > 0 { LowNext(h / 2, k - 1); }
  }

  lemma {:induction false} LowIsRemainder(h: nat, k: nat)
    ensures exists q :: h == Pow2(k) * q + Low(h, k)
    decreases k
  {
    if k == 0 {
      assert h == Pow2(0) * h + Low(h, 0);
    } else {
      LowIsRemainder(h / 2, k - 1);
      var q :| h / 2 == Pow2(k - 1) * q + Low(h / 2, k - 1);
      assert 2 * (Pow2(k - 1) * q) == Pow2(k) * q;
      assert h == Pow2(k) * q + Low(h, k);
    }
  }

  /** The number of bits that hold an index. */
  function ToRadix(index: nat): nat { BitLength(index) }

  function ToChild(index: nat, radix: nat): nat { index + Pow2(radix) }

  function ToParent(index: nat): nat {
    if index == 0 then 0 else
      BitLengthBounds(index);
      index - Pow2(ToRadix(index) - 1)
  }

  lemma RadixIs(index: nat, r: nat)
    requires r > 0 && Pow2(r - 1) <= index < Pow2(r)
    ensures ToRadix(index) == r
  {
    BitLengthLimit(index, r);
    BitLengthBounds(index);
    if ToRadix(index) < r { Pow2Monotone(ToRadix(index), r - 1); }
  }

  lemma RadixBound(index: nat, r: nat)
    requires ToRadix(index) <= r
    ensures index < Pow2(r)
  {
    if index > 0 { BitLengthBounds(index); }
    Pow2Monotone(ToRadix(index), r);
  }

  /** Splitting and finding the parent undo each other. */
  lemma ParentOfChild(index: nat, r: nat)
    requires ToRadix(index) <= r
    ensures ToRadix(ToChild(index, r)) == r + 1 && ToParent(ToChild(index, r)) == index
  {
    RadixBound(index, r);
    RadixIs(ToChild(index, r), r + 1);
  }

  lemma ChildOfParent(index: nat)
    requires index > 0
    ensures ToRadix(ToParent(index)) < ToRadix(index) && ToParent(index) < index
    ensures ToChild(ToParent(index), ToRadix(index) - 1) == index
  {
    BitLengthBounds(index);
    BitLengthLimit(ToParent(index), ToRadix(index) - 1);
  }

  /** The parent is what is left without the top bit. */
  lemma ParentIsLow(index: nat)
    requires index > 0
    ensures ToParent(index) == Low(index, ToRadix(index) - 1)
  {
    var r := ToRadix(index);
    BitLengthBounds(index);
    LowNext(index, r - 1);
    LowOfSmall(index, r);
    LowBound(index, r - 1);
  }
}

/** Which partition a hash belongs to, and how splits and merges change that. */
module GigaRouting {
  import opened Binary
  import opened GigaIndex

  /** Partition 0 exists, and so does the parent of every partition. */
  ghost predicate Closed(s: set<nat>) {
    0 in s && forall i :: i in s ==> ToParent(i) in s
  }

  /** The partition lies on the path of the hash. */
  predicate OnPath(i: nat, h: nat) { Low(h, ToRadix(i)) == i }

  /** The partition is the deepest one on the path of the hash. */
  ghost predicate Owns(s: set<nat>, i: nat, h: nat) {
    && i in s && OnPath(i, h)
    && forall j :: j in s && OnPath(j, h) ==> ToRadix(j) <= ToRadix(i)
  }

  ghost predicate Within(s: set<nat>, r: nat) {
    forall i :: i in s ==> ToRadix(i) <= r
  }

  /** A hash has one owner at most. */
  lemma OwnerIsUnique(s: set<nat>, i: nat, j: nat, h: nat)
    requires Owns(s, i, h) && Owns(s, j, h)
    ensures i == j
  {
  }

  lemma LowOnPath(h: nat, k: nat)
    ensures OnPath(Low(h, k), h) && ToRadix(Low(h, k)) <= k
  {
    var i := Low(h, k);
    LowBound(h, k);
    BitLengthLimit(i, k);
    LowOfLow(h, ToRadix(i), k);
    RadixBound(i, ToRadix(i));
    LowOfSmall(i, ToRadix(i));
  }

  /** Between its radix and k, the path of a hash stays at Low(h, k). */
  lemma PathStays(h: nat, k: nat, m: nat)
    requires ToRadix(Low(h, k)) <= m <= k
    ensures Low(h, m) == Low(h, k)
  {
    LowOfLow(h, m, k);
    RadixBound(Low(h, k), m);
    LowOfSmall(Low(h, k), m);
  }

  /** The deepest partition on the path among those of at most k bits. */
  ghost function Route(s: set<nat>, h: nat, k: nat): nat {
    if Low(h, k) in s || k == 0 then Low(h, k) else Route(s, h, k - 1)
  }

  lemma {:induction false} RouteOwns(s: set<nat>, h: nat, k: nat)
    requires 0 in s
    ensures var i := Route(s, h, k);
      && i in s && OnPath(i, h) && ToRadix(i) <= k
      && forall j :: j in s && OnPath(j, h) && ToRadix(j) <= k ==> ToRadix(j) <= ToRadix(i)
  {
    LowOnPath(h, k);
    if Low(h, k) in s {
      forall j | j in s && OnPath(j, h) && ToRadix(j) <= k ensures ToRadix(j) <= ToRadix(Low(h, k)) {
        if ToRadix(j) > ToRadix(Low(h, k)) { PathStays(h, k, ToRadix(j)); }
      }
    } else if k > 0 {
      RouteOwns(s, h, k - 1);
    }
  }

  /** Every hash has an owner, and routing finds it. */
  lemma RouteIsOwner(s: set<nat>, h: nat, k: nat)
    requires 0 in s && Within(s, k)
    ensures Owns(s, Route(s, h, k), h)
  {
    RouteOwns(s, h, k);
  }

  /** Going to the parent passes over no partition. */
  lemma {:induction false} RouteSkips(s: set<nat>, h: nat, k: nat, j: nat)
    requires j <= k && forall m :: j < m <= k ==> Low(h, m) !in s
    ensures Route(s, h, k) == Route(s, h, j)
    decreases k
  {
    if j < k { RouteSkips(s, h, k - 1, j); }
  }

  lemma RouteToParent(s: set<nat>, h: nat, k: nat)
    requires Low(h, k) !in s && Low(h, k) > 0
    ensures var i := Low(h, k);
      && ToParent(i) == Low(h, ToRadix(i) - 1) && ToRadix(i) <= k
      && Route(s, h, k) == Route(s, h, ToRadix(i) - 1)
  {
    var i := Low(h, k);
    LowOnPath(h, k);
    ParentIsLow(i);
    LowOfLow(h, ToRadix(i) - 1, k);
    forall m | ToRadix(i) - 1 < m <= k ensures Low(h, m) !in s { PathStays(h, k, m); }
    RouteSkips(s, h, k, ToRadix(i) - 1);
  }

  // ----------------------------------------------------------------- closed sets

  /** In a closed set, everything on the way to a partition exists. */
  lemma {:induction false} PathIsClosed(s: set<nat>, j: nat, k: nat)
    requires Closed(s) && j in s
    ensures Low(j, k) in s
    decreases j
  {
    if ToRadix(j) <= k {
      RadixBound(j, k);
      LowOfSmall(j, k);
    } else {
      ChildOfParent(j);
      ParentIsLow(j);
      LowOfLow(j, k, ToRadix(j) - 1);
      PathIsClosed(s, ToParent(j), k);
    }
  }

  /** A stale, smaller index sends a hash to an ancestor of its true partition. */
  lemma StaleRouteIsAncestor(client: set<nat>, server: set<nat>, i: nat, j: nat, h: nat)
    requires client <= server && Owns(client, i, h) && Owns(server, j, h)
    ensures ToRadix(i) <= ToRadix(j) && Low(j, ToRadix(i)) == i
  {
    LowOfLow(h, ToRadix(i), ToRadix(j));
  }

  lemma ClosedUnion(a: set<nat>, b: set<nat>)
    requires Closed(a) && Closed(b)
    ensures Closed(a + b)
  {
  }

  /** Once a subset has been merged with the whole, it routes as the whole does. */
  lemma MergedRoute(client: set<nat>, server: set<nat>, i: nat, j: nat, h: nat)
    requires client <= server && Owns(client + server, i, h) && Owns(server, j, h)
    ensures i == j
  {
    assert client + server == server;
    OwnerIsUnique(server, i, j, h);
  }

  // ---------------------------------------------------------------------- splits

  /** A hash moves to a new child if the child is on its path. */
  predicate ToBeMigrated(child: nat, h: nat) { OnPath(child, h) }

  /** Where a child is missing, its parent owns what the child will take over. */
  lemma ParentOwnsMigrated(s: set<nat>, child: nat, h: nat)
    requires Closed(s) && child !in s && ToParent(child) in s && ToBeMigrated(child, h)
    ensures child > 0 && Owns(s, ToParent(child), h)
  {
    var i := ToParent(child);
    ChildOfParent(child);
    ParentIsLow(child);
    var r := ToRadix(child);
    LowOfLow(h, r - 1, r);
    LowOnPath(h, r - 1);
    forall j | j in s && OnPath(j, h) ensures ToRadix(j) <= ToRadix(i) {
      if ToRadix(j) >= r {
        LowOfLow(h, r, ToRadix(j));
        PathIsClosed(s, j, r);
      } else if ToRadix(j) > ToRadix(i) {
        PathStays(h, r - 1, ToRadix(j));
      }
    }
  }

  /** A split moves exactly the hashes marked for migration, all of them from the parent. */
  lemma SplitMovesExactly(s: set<nat>, child: nat, h: nat, before: nat, after: nat)
    requires Closed(s) && child !in s && ToParent(child) in s
    requires Owns(s, before, h) && Owns(s + {child}, after, h)
    ensures Closed(s + {child})
    ensures after == if ToBeMigrated(child, h) then child else before
    ensures ToBeMigrated(child, h) ==> before == ToParent(child)
  {
    if ToBeMigrated(child, h) {
      ParentOwnsMigrated(s, child, h);
      OwnerIsUnique(s, before, ToParent(child), h);
      ChildOfParent(child);
      assert ToRadix(after) >= ToRadix(child);
    } else {
      assert after in s && before in s + {child};
      OwnerIsUnique(s, before, after, h);
    }
  }
}

/** Runs of splits from a new directory. */
module GigaSplits {
  import opened Binary
  import opened GigaIndex
  import opened GigaRouting

  /** The radix at which the next child of a partition would be made; 16 if there is none. */
  ghost function FreeRadix(s: set<nat>, index: nat, r: nat): (f: nat)
    requires r <= MAX_RADIX
    ensures r <= f <= MAX_RADIX && (f < MAX_RADIX ==> ToChild(index, f) !in s)
    ensures forall m :: r <= m < f ==> ToChild(index, m) in s
    decreases MAX_RADIX - r
  {
    if r == MAX_RADIX || ToChild(index, r) !in s then r else FreeRadix(s, index, r + 1)
  }

  ghost predicate Splittable(s: set<nat>, index: nat, servers: nat) {
    && index in s && ToRadix(index) <= MAX_RADIX
    && FreeRadix(s, index, ToRadix(index)) < MAX_RADIX
    && ToChild(index, FreeRadix(s, index, ToRadix(index))) < servers
  }

  /** NewIndexForSplitting. */
  ghost function NewIndex(s: set<nat>, index: nat): nat
    requires ToRadix(index) <= MAX_RADIX
  {
    ToChild(index, FreeRadix(s, index, ToRadix(index)))
  }

  ghost predicate IsRadix(s: set<nat>, r: nat) {
    Within(s, r) && exists i :: i in s && ToRadix(i) == r
  }

  /** What holds of every index that servers make: partitions below the number of servers. */
  ghost predicate Inv(s: set<nat>, servers: nat) {
    Closed(s) && forall i :: i in s ==> i < servers
  }

  /** A split keeps the invariant, and the radix grows by one at most. */
  lemma SplitInv(s: set<nat>, index: nat, servers: nat, r: nat)
    requires Inv(s, servers) && Splittable(s, index, servers) && IsRadix(s, r)
    ensures var c := NewIndex(s, index);
      && c !in s && ToParent(c) == index && Inv(s + {c}, servers)
      && ToRadix(c) <= r + 1
      && IsRadix(s + {c}, if ToRadix(c) > r then ToRadix(c) else r)
  {
    var f := FreeRadix(s, index, ToRadix(index));
    var c := NewIndex(s, index);
    ParentOfChild(index, f);
    if f > ToRadix(index) {
      ParentOfChild(index, f - 1);
      assert ToChild(index, f - 1) in s;
    }
    RadixWith(s, c, r);
  }

  lemma RadixWith(s: set<nat>, c: nat, r: nat)
    requires IsRadix(s, r)
    ensures IsRadix(s + {c}, if ToRadix(c) > r then ToRadix(c) else r)
  {
    var i :| i in s && ToRadix(i) == r;
    assert i in s + {c} && c in s + {c};
  }

  // ------------------------------------------------------------------------ runs

  /** The partitions after splitting those of the path, one after the other. */
  ghost function Run(s: set<nat>, path: seq<nat>): set<nat>
    decreases path
  {
    if path == [] then s
    else if ToRadix(path[0]) > MAX_RADIX then s
    else Run(s + {NewIndex(s, path[0])}, path[1..])
  }

  /** Every split of the path was allowed. */
  ghost predicate Allowed(s: set<nat>, path: seq<nat>, servers: nat)
    decreases path
  {
    path != [] ==> Splittable(s, path[0], servers) && Allowed(s + {NewIndex(s, path[0])}, path[1..], servers)
  }

  lemma {:induction false} RunInv(s: set<nat>, path: seq<nat>, servers: nat, r: nat) returns (r': nat)
    requires Inv(s, servers) && IsRadix(s, r) && Allowed(s, path, servers)
    ensures Inv(Run(s, path), servers) && IsRadix(Run(s, path), r') && r <= r' <= r + |path|
    decreases path
  {
    r' := r;
    if path != [] {
      SplitInv(s, path[0], servers, r);
      var c := NewIndex(s, path[0]);
      r' := RunInv(s + {c}, path[1..], servers, if ToRadix(c) > r then ToRadix(c) else r);
    }
  }

  /** In every run from a new directory, the set is closed and each hash has exactly one owner. */
  lemma EveryRun(path: seq<nat>, servers: nat, h: nat) returns (r: nat)
    requires servers >= 1 && Allowed({0}, path, servers)
    ensures Inv(Run({0}, path), servers) && IsRadix(Run({0}, path), r)
    ensures Owns(Run({0}, path), Route(Run({0}, path), h, r), h)
    ensures forall i :: Owns(Run({0}, path), i, h) ==> i == Route(Run({0}, path), h, r)
  {
    assert ToParent(0) == 0 && ToRadix(0) == 0 && 0 in {0};
    r := RunInv({0}, path, servers, 0);
    RouteIsOwner(Run({0}, path), h, r);
  }

  // ------------------------------------------- the bound HashToIndex asserts

  /** The index taken from a hash is below the number of servers for all hashes iff that is at least 2^r. */
  lemma BoundHoldsIff(r: nat, servers: nat)
    ensures (forall h :: Low(h, r) < servers) <==> Pow2(r) <= servers
  {
    if Pow2(r) <= servers {
      forall h ensures Low(h, r) < servers { LowBound(h, r); }
    } else {
      LowOfSmall(Pow2(r) - 1, r);
      assert Low(Pow2(r) - 1, r) >= servers;
    }
  }

  /** With a power of two servers, HashToIndex never asserts a bound that fails. */
  lemma PowerOfTwoIsSafe(s: set<nat>, k: nat, r: nat)
    requires Inv(s, Pow2(k)) && IsRadix(s, r)
    ensures Pow2(r) <= Pow2(k)
  {
    var i :| i in s && ToRadix(i) == r;
    BitLengthLimit(i, k);
    Pow2Monotone(r, k);
  }

  /** Partition 0 and its first m children. */
  ghost function Spine(m: nat): set<nat> {
    if m == 0 then {0} else Spine(m - 1) + {Pow2(m - 1)}
  }

  lemma {:induction false} InSpine(m: nat, j: nat)
    ensures 0 in Spine(m) && (Pow2(j) in Spine(m) <==> j < m)
  {
    if m > 0 {
      InSpine(m - 1, j);
      if j < m - 1 { Pow2Step(j, m - 1); }
      if m - 1 < j { Pow2Step(m - 1, j); }
    }
  }

  lemma {:induction false} Pow2Step(a: nat, b: nat)
    requires a < b
    ensures Pow2(a) < Pow2(b)
  {
    if a < b - 1 { Pow2Step(a, b - 1); }
  }

  lemma FreeRadixIs(s: set<nat>, index: nat, r: nat, m: nat)
    requires r <= m < MAX_RADIX && ToChild(index, m) !in s && forall j :: r <= j < m ==> ToChild(index, j) in s
    ensures FreeRadix(s, index, r) == m
  {
  }

  lemma NextOnSpine(m: nat, zero: nat, r: nat)
    requires m < MAX_RADIX && zero == 0 && r == 0
    ensures FreeRadix(Spine(m), zero, r) == m
  {
    var s := Spine(m);
    InSpine(m, m);
    forall j | r <= j < m ensures ToChild(zero, j) in s { InSpine(m, j); }
    FreeRadixIs(s, zero, r, m);
  }

  lemma SpineSplits(m: nat, zero: nat, servers: nat)
    requires m < MAX_RADIX && zero == 0 && Pow2(m) < servers
    ensures Splittable(Spine(m), zero, servers) && Spine(m + 1) == Spine(m) + {NewIndex(Spine(m), zero)}
  {
    NextOnSpine(m, zero, ToRadix(zero));
    InSpine(m, m);
  }

  lemma SpineStep(m: nat, path: seq<nat>, servers: nat)
    requires m < MAX_RADIX && path != [] && path[0] == 0 && Pow2(m) < servers
    requires Allowed(Spine(m + 1), path[1..], servers)
    ensures Allowed(Spine(m), path, servers) && Run(Spine(m), path) == Run(Spine(m + 1), path[1..])
  {
    SpineSplits(m, path[0], servers);
  }

  /** Splitting partition 0 over and over is allowed while there are servers left. */
  lemma {:induction false} SpineRun(m: nat, k: nat, path: seq<nat>, servers: nat)
    requires m <= k <= MAX_RADIX && |path| == k - m && (forall i :: 0 <= i < |path| ==> path[i] == 0)
    requires m < k ==> Pow2(k - 1) < servers
    ensures Allowed(Spine(m), path, servers) && Run(Spine(m), path) == Spine(k)
    decreases k - m
  {
    if m < k {
      if m < k - 1 { Pow2Step(m, k - 1); }
      SpineRun(m + 1, k, path[1..], servers);
      SpineStep(m, path, servers);
    }
  }

  lemma {:induction false} SpineRadix(m: nat)
    ensures IsRadix(Spine(m), m)
  {
    if m == 0 {
      assert 0 in Spine(0) && ToRadix(0) == 0;
    } else {
      SpineRadix(m - 1);
      RadixIs(Pow2(m - 1), m);
      RadixWith(Spine(m - 1), Pow2(m - 1), m - 1);
    }
  }

  /** Every index HashToIndex can start from, in any run, is below the number of servers. */
  ghost predicate BoundIsSafe(servers: nat) {
    forall path, h, r :: Allowed({0}, path, servers) && IsRadix(Run({0}, path), r) ==> Low(h, r) < servers
  }

  ghost predicate PowerOfTwo(n: nat) {
    exists k :: n == Pow2(k)
  }

  lemma SafeIfPower(servers: nat)
    requires PowerOfTwo(servers)
    ensures BoundIsSafe(servers)
  {
    var k :| servers == Pow2(k);
    forall path, h, r | Allowed({0}, path, servers) && IsRadix(Run({0}, path), r) ensures Low(h, r) < servers {
      var _ := EveryRun(path, servers, h);
      PowerOfTwoIsSafe(Run({0}, path), k, r);
      LowBound(h, r);
    }
  }

  lemma UnsafeIfNotPower(servers: nat, k: nat)
    requires 1 <= k <= MAX_RADIX && Pow2(k - 1) < servers < Pow2(k)
    ensures !BoundIsSafe(servers)
  {
    var path := seq(k, i => 0);
    SpineRun(0, k, path, servers);
    SpineRadix(k);
    LowOfSmall(Pow2(k) - 1, k);
    Violation(servers, path, Pow2(k) - 1, k);
  }

  lemma Violation(servers: nat, path: seq<nat>, h: nat, r: nat)
    requires Allowed({0}, path, servers) && IsRadix(Run({0}, path), r) && Low(h, r) >= servers
    ensures !BoundIsSafe(servers)
  {
  }

  /** The assertion in HashToIndex holds in all runs exactly when the number of servers is a power of two. */
  lemma BoundIsSafeIff(servers: nat, max: nat)
    requires max == MAX_RADIX && 1 <= servers <= Pow2(max)
    ensures BoundIsSafe(servers) <==> PowerOfTwo(servers)
  {
    if PowerOfTwo(servers) {
      SafeIfPower(servers);
    } else {
      var k := BitLength(servers);
      BitLengthBounds(servers);
      assert servers != Pow2(k - 1) && servers != Pow2(max);
      BitLengthLimit(servers, max);
      UnsafeIfNotPower(servers, k);
    }
  }

  /** Three servers: after two splits of partition 0, a hash that ends in 11 starts at 3. */
  lemma ThreeServersFail()
    ensures Allowed({0}, [0, 0], 3) && IsRadix(Run({0}, [0, 0]), 2) && Low(3, 2) == 3
  {
    assert Pow2(1) == 2;
    SpineRun(0, 2, [0, 0], 3);
    SpineRadix(2);
    LowOfSmall(3, 2);
  }
}

/**
  One server that splits partitions and clients that cache its index, each in its own
  time: a client's copy may lag behind, and is merged with the server's when it asks.
 */
module GigaClients {
  import opened GigaIndex
  import opened GigaRouting
  import opened GigaSplits

  datatype System = System(server: set<nat>, clients: seq<set<nat>>)

  datatype Event = Splits(index: nat) | Fetches(client: nat)

  ghost predicate Possible(y: System, v: Event, servers: nat) {
    match v
    case Splits(index) => Splittable(y.server, index, servers)
    case Fetches(client) => client < |y.clients|
  }

  ghost function After(y: System, v: Event, servers: nat): System
    requires Possible(y, v, servers)
  {
    match v
    case Splits(index) => y.(server := y.server + {NewIndex(y.server, index)})
    case Fetches(client) => y.(clients := y.clients[client := y.clients[client] + y.server])
  }

  ghost predicate IsRun(systems: seq<System>, events: seq<Event>, servers: nat, clients: nat) {
    && |systems| == |events| + 1
    && systems[0] == System({0}, seq(clients, i => {0}))
    && forall i :: 0 <= i < |events| ==>
         Possible(systems[i], events[i], servers) && systems[i + 1] == After(systems[i], events[i], servers)
  }

  /** No client knows a partition the server does not, and every copy is closed. */
  ghost predicate Behind(y: System, servers: nat) {
    && Inv(y.server, servers) && (exists r :: IsRadix(y.server, r))
    && forall c :: 0 <= c < |y.clients| ==> Closed(y.clients[c]) && y.clients[c] <= y.server
  }

  lemma EventKeeps(y: System, v: Event, servers: nat)
    requires Behind(y, servers) && Possible(y, v, servers)
    ensures Behind(After(y, v, servers), servers)
  {
    match v
    case Splits(index) =>
      var r :| IsRadix(y.server, r);
      SplitInv(y.server, index, servers, r);
    case Fetches(client) => ClosedUnion(y.clients[client], y.server);
  }

  lemma {:induction false} RunKeeps(systems: seq<System>, events: seq<Event>, servers: nat, clients: nat, i: nat)
    requires IsRun(systems, events, servers, clients) && servers >= 1 && i < |systems|
    ensures Behind(systems[i], servers) && |systems[i].clients| == clients
  {
    if i == 0 {
      assert ToParent(0) == 0 && ToRadix(0) == 0 && 0 in {0};
      assert IsRadix({0}, 0);
    } else {
      RunKeeps(systems, events, servers, clients, i - 1);
      EventKeeps(systems[i - 1], events[i - 1], servers);
    }
  }

  /** A smaller index finds the true partition of a hash exactly if it knows that partition. */
  lemma RightIffKnown(client: set<nat>, server: set<nat>, i: nat, j: nat, h: nat)
    requires client <= server && Owns(client, i, h) && Owns(server, j, h)
    ensures i == j <==> j in client
  {
    if j in client { OwnerIsUnique(client, i, j, h); }
  }

  /** At every point of every run, a client sends a hash to its partition or to an ancestor
      of it, and to the partition itself exactly if it has heard of it. */
  lemma EveryClientRoutes(
    systems: seq<System>, events: seq<Event>, servers: nat, clients: nat, k: nat, c: nat, h: nat, i: nat, j: nat)
    requires IsRun(systems, events, servers, clients) && servers >= 1 && k < |systems| && c < clients
    requires c < |systems[k].clients| && Owns(systems[k].clients[c], i, h) && Owns(systems[k].server, j, h)
    ensures Low(j, ToRadix(i)) == i && (i == j <==> j in systems[k].clients[c])
  {
    RunKeeps(systems, events, servers, clients, k);
    StaleRouteIsAncestor(systems[k].clients[c], systems[k].server, i, j, h);
    RightIffKnown(systems[k].clients[c], systems[k].server, i, j, h);
  }

  /** Right after it has asked, a client sends every hash where the server would. */
  lemma FreshClientRoutes(
    systems: seq<System>, events: seq<Event>, servers: nat, clients: nat, k: nat, c: nat, h: nat, i: nat, j: nat)
    requires IsRun(systems, events, servers, clients) && servers >= 1 && k < |events| && c < clients
    requires events[k] == Fetches(c) && c < |systems[k + 1].clients|
    requires Owns(systems[k + 1].clients[c], i, h) && Owns(systems[k + 1].server, j, h)
    ensures i == j
  {
    RunKeeps(systems, events, servers, clients, k);
    MergedRoute(systems[k].clients[c], systems[k].server, i, j, h);
  }
}

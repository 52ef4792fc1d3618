/**
  The skip list of src/leveldb/skiplist.h: one writer, any number of lock-free
  readers.  Every pointer load and every pointer store is one atomic step, and a
  run interleaves the steps of all threads in any order.

  A node is its index in the arena (nodes are never freed); index 0 is head_.
  A key is its position under the list's comparator.
 */
module SkipListMemory {

  const MAX_HEIGHT: nat := 12

  datatype Ptr = Null | To(node: nat)

  datatype Node = Node(key: int, next: seq<Ptr>)

  /** The shared memory: the arena, and max_height_. */
  datatype Memory = Memory(nodes: seq<Node>, maxHeight: nat) {

    predicate HasLink(x: nat, level: nat) {
      x < |nodes| && level < |nodes[x].next|
    }

    function Next(x: nat, level: nat): Ptr
      requires HasLink(x, level)
    {
      nodes[x].next[level]
    }

    function SetNext(x: nat, level: nat, p: Ptr): Memory
      requires HasLink(x, level)
    {
      this.(nodes := nodes[x := nodes[x].(next := nodes[x].next[level := p])])
    }

    /** KeyIsAfterNode: NULL is considered infinite. */
    predicate KeyIsAfterNode(key: int, p: Ptr)
      requires p.To? ==> p.node < |nodes|
    {
      p.To? && nodes[p.node].key < key
    }

    /** x sorts before key; head_ sorts before every key. */
    predicate Before(x: nat, key: int)
      requires x < |nodes|
    {
      x == 0 || nodes[x].key < key
    }
  }

  function Empty(): Memory {
    Memory([Node(0, seq(MAX_HEIGHT, i => Null))], 1)
  }

  /** For each level, the nodes whose link at that level has been published. */
  type Levels = seq<set<nat>>

  predicate OnLevel(levels: Levels, level: nat, x: nat)
    requires level < |levels|
  {
    x == 0 || x in levels[level]
  }

  /** p is the link that a sorted list holding exactly `members` has at x. */
  ghost predicate IsLink(m: Memory, members: set<nat>, x: nat, p: Ptr)
    requires x < |m.nodes| && forall y :: y in members ==> y < |m.nodes|
  {
    match p
    case Null => forall y :: y in members ==> !m.Before(x, m.nodes[y].key)
    case To(n) =>
      && n in members
      && m.Before(x, m.nodes[n].key)
      && forall y :: y in members && m.Before(x, m.nodes[y].key) ==> m.nodes[n].key <= m.nodes[y].key
  }

  ghost predicate Allocated(m: Memory, members: set<nat>, level: nat) {
    && m.HasLink(0, level)
    && forall x :: x in members ==> 0 < x && m.HasLink(x, level)
  }

  /** The links at one level are those of the sorted list of its members. */
  ghost predicate SortedLevel(m: Memory, members: set<nat>, level: nat) {
    && Allocated(m, members, level)
    && IsLink(m, members, 0, m.Next(0, level))
    && forall x :: x in members ==> IsLink(m, members, x, m.Next(x, level))
  }

  ghost predicate DistinctKeys(m: Memory, members: set<nat>)
    requires forall y :: y in members ==> y < |m.nodes|
  {
    forall x, y :: x in members && y in members && m.nodes[x].key == m.nodes[y].key ==> x == y
  }

  /** Every level is a sorted sublist of the level below. */
  ghost predicate WellFormed(m: Memory, levels: Levels) {
    && |levels| == MAX_HEIGHT
    && 1 <= m.maxHeight <= MAX_HEIGHT
    && (forall l :: 0 <= l < MAX_HEIGHT ==> SortedLevel(m, levels[l], l))
    && Nested(levels, m.maxHeight)
    && DistinctKeys(m, levels[0])
  }

  ghost predicate Nested(levels: Levels, maxHeight: nat)
    requires |levels| == MAX_HEIGHT
  {
    && (forall l :: 0 < l < MAX_HEIGHT ==> levels[l] <= levels[l - 1])
    && (forall l :: maxHeight <= l < MAX_HEIGHT ==> levels[l] == {})
  }

  /** The keys a reader of the bottom list can find. */
  ghost function Keys(m: Memory, members: set<nat>): set<int>
    requires forall y :: y in members ==> y < |m.nodes|
  {
    set x | x in members :: m.nodes[x].key
  }

  /** The nodes met by following the links of one level from x. */
  ghost function Walk(m: Memory, members: set<nat>, level: nat, x: nat): seq<nat>
    requires SortedLevel(m, members, level) && (x == 0 || x in members)
    decreases |After(m, members, x)|
  {
    match m.Next(x, level)
    case Null => []
    case To(n) =>
      AfterShrinks(m, members, level, x, n);
      [n] + Walk(m, members, level, n)
  }

  ghost function After(m: Memory, members: set<nat>, x: nat): set<nat>
    requires x < |m.nodes| && forall y :: y in members ==> y < |m.nodes|
  {
    set y | y in members && m.Before(x, m.nodes[y].key)
  }

  lemma AfterShrinks(m: Memory, members: set<nat>, level: nat, x: nat, n: nat)
    requires SortedLevel(m, members, level) && (x == 0 || x in members)
    requires m.Next(x, level) == To(n)
    ensures n in members && n in After(m, members, x)
    ensures After(m, members, n) < After(m, members, x)
    ensures |After(m, members, n)| < |After(m, members, x)|
  {
    assert IsLink(m, members, x, To(n));
    var big, small := After(m, members, x), After(m, members, n);
    assert small <= big - {n};
    Cardinality(small, big - {n});
  }

  lemma {:induction false} Cardinality(a: set<nat>, b: set<nat>)
    requires a <= b
    ensures |a| <= |b|
    decreases a
  {
    if a != {} {
      var x :| x in a;
      Cardinality(a - {x}, b - {x});
    }
  }

  ghost predicate Increasing(m: Memory, s: seq<nat>) {
    && (forall i :: 0 <= i < |s| ==> s[i] < |m.nodes|)
    && (forall i, j :: 0 <= i < j < |s| ==> m.nodes[s[i]].key < m.nodes[s[j]].key)
  }

  lemma AfterStep(m: Memory, members: set<nat>, level: nat, x: nat, n: nat)
    requires SortedLevel(m, members, level) && (x == 0 || x in members)
    requires DistinctKeys(m, members)
    requires m.Next(x, level) == To(n)
    ensures n in members && After(m, members, x) == {n} + After(m, members, n)
  {
    assert IsLink(m, members, x, To(n));
  }

  lemma IncreasingCons(m: Memory, n: nat, rest: seq<nat>)
    requires n < |m.nodes| && Increasing(m, rest)
    requires forall y :: y in rest ==> m.nodes[n].key < m.nodes[y].key
    ensures Increasing(m, [n] + rest)
  {
  }

  /** A level's links, followed from head_, visit exactly its members in key order. */
  lemma {:induction false} WalkIsSorted(m: Memory, members: set<nat>, level: nat, x: nat)
    requires SortedLevel(m, members, level) && (x == 0 || x in members)
    requires DistinctKeys(m, members)
    ensures forall y :: y in Walk(m, members, level, x) <==> y in After(m, members, x)
    ensures Increasing(m, Walk(m, members, level, x))
    decreases |After(m, members, x)|
  {
    match m.Next(x, level)
    case Null =>
      assert IsLink(m, members, x, Null);
    case To(n) =>
      AfterShrinks(m, members, level, x, n);
      WalkIsSorted(m, members, level, n);
      AfterStep(m, members, level, x, n);
      IncreasingCons(m, n, Walk(m, members, level, n));
  }
}

/** What each kind of store does to the lists. */
module SkipListStores {
  import opened SkipListMemory

  /** Nodes are never freed or rekeyed and never leave a list. */
  ghost predicate Grows(m: Memory, levels: Levels, m': Memory, levels': Levels) {
    && |m.nodes| <= |m'.nodes|
    && (forall x :: 0 <= x < |m.nodes| ==> m'.nodes[x].key == m.nodes[x].key)
    && |levels| == |levels'|
    && (forall l :: 0 <= l < |levels| ==> levels[l] <= levels'[l])
  }

  lemma GrowsTransitive(m: Memory, l: Levels, m': Memory, l': Levels, m'': Memory, l'': Levels)
    requires Grows(m, l, m', l') && Grows(m', l', m'', l'')
    ensures Grows(m, l, m'', l'')
  {
  }

  /** A level whose members keep their keys and links stays sorted. */
  lemma LevelUntouched(m: Memory, m': Memory, members: set<nat>, level: nat)
    requires SortedLevel(m, members, level)
    requires |m.nodes| <= |m'.nodes|
    requires forall x :: 0 <= x < |m.nodes| ==> m'.nodes[x].key == m.nodes[x].key
    requires m'.HasLink(0, level) && m'.Next(0, level) == m.Next(0, level)
    requires forall x :: x in members ==> m'.HasLink(x, level) && m'.Next(x, level) == m.Next(x, level)
    ensures SortedLevel(m', members, level)
  {
    forall x | x == 0 || x in members ensures IsLink(m', members, x, m'.Next(x, level)) {
      assert IsLink(m, members, x, m.Next(x, level));
    }
  }

  /** Writing a link of a node not yet published at that level changes no list. */
  lemma PrivateStore(m: Memory, levels: Levels, x: nat, level: nat, p: Ptr)
    requires WellFormed(m, levels) && level < MAX_HEIGHT
    requires m.HasLink(x, level) && !OnLevel(levels, level, x)
    ensures WellFormed(m.SetNext(x, level, p), levels)
    ensures Grows(m, levels, m.SetNext(x, level, p), levels)
  {
    var m' := m.SetNext(x, level, p);
    forall l | 0 <= l < MAX_HEIGHT ensures SortedLevel(m', levels[l], l) {
      assert SortedLevel(m, levels[l], l);
      LevelUntouched(m, m', levels[l], l);
    }
  }

  lemma Allocation(m: Memory, levels: Levels, n: Node)
    requires WellFormed(m, levels)
    ensures WellFormed(m.(nodes := m.nodes + [n]), levels)
    ensures Grows(m, levels, m.(nodes := m.nodes + [n]), levels)
  {
    var m' := m.(nodes := m.nodes + [n]);
    forall l | 0 <= l < MAX_HEIGHT ensures SortedLevel(m', levels[l], l) {
      assert SortedLevel(m, levels[l], l);
      LevelUntouched(m, m', levels[l], l);
    }
  }

  lemma HeightStore(m: Memory, levels: Levels, h: nat)
    requires WellFormed(m, levels) && m.maxHeight <= h <= MAX_HEIGHT
    ensures WellFormed(m.(maxHeight := h), levels)
    ensures Grows(m, levels, m.(maxHeight := h), levels)
  {
    var m' := m.(maxHeight := h);
    forall l | 0 <= l < MAX_HEIGHT ensures SortedLevel(m', levels[l], l) {
      assert SortedLevel(m, levels[l], l);
      LevelUntouched(m, m', levels[l], l);
    }
  }

  /** Where a new node of this key belongs at a level: right behind x. */
  ghost predicate IsPlace(m: Memory, levels: Levels, key: int, level: nat, x: nat) {
    && level < |levels|
    && OnLevel(levels, level, x)
    && m.HasLink(x, level)
    && m.Before(x, key)
    && (m.Next(x, level).To? ==> m.Next(x, level).node < |m.nodes|)
    && !m.KeyIsAfterNode(key, m.Next(x, level))
  }

  /** n fits between x and x's link p in the sorted list of members. */
  ghost predicate Fits(m: Memory, members: set<nat>, x: nat, p: Ptr, n: nat) {
    && x < |m.nodes| && 0 < n < |m.nodes|
    && (forall y :: y in members ==> 0 < y < |m.nodes| && m.nodes[y].key != m.nodes[n].key)
    && (x == 0 || x in members)
    && IsLink(m, members, x, p)
    && m.Before(x, m.nodes[n].key) && !m.KeyIsAfterNode(m.nodes[n].key, p)
  }

  lemma FitsBehind(m: Memory, members: set<nat>, x: nat, p: Ptr, n: nat)
    requires Fits(m, members, x, p, n)
    ensures IsLink(m, members + {n}, x, To(n)) && IsLink(m, members + {n}, n, p)
  {
  }

  lemma FitsElsewhere(m: Memory, members: set<nat>, x: nat, p: Ptr, n: nat, y: nat, q: Ptr)
    requires Fits(m, members, x, p, n)
    requires y != x && (y == 0 || y in members) && IsLink(m, members, y, q)
    requires DistinctKeys(m, members)
    ensures IsLink(m, members + {n}, y, q)
  {
  }

  lemma SameKeysSameLink(m: Memory, m': Memory, members: set<nat>, y: nat, p: Ptr)
    requires y < |m.nodes| && forall z :: z in members ==> z < |m.nodes|
    requires IsLink(m, members, y, p)
    requires |m'.nodes| == |m.nodes| && forall z :: 0 <= z < |m.nodes| ==> m'.nodes[z].key == m.nodes[z].key
    ensures IsLink(m', members, y, p)
  {
  }

  /** Publishing a prepared node right behind its place inserts it into that one list. */
  lemma PublishSorts(m: Memory, members: set<nat>, level: nat, x: nat, n: nat)
    requires SortedLevel(m, members, level) && DistinctKeys(m, members)
    requires (x == 0 || x in members) && Fits(m, members, x, m.Next(x, level), n)
    requires n !in members && m.HasLink(n, level)
    requires m.Next(n, level) == m.Next(x, level)
    ensures SortedLevel(m.SetNext(x, level, To(n)), members + {n}, level)
  {
    var m' := m.SetNext(x, level, To(n));
    forall y | y == 0 || y in members + {n} ensures IsLink(m', members + {n}, y, m'.Next(y, level)) {
      if y == x || y == n {
        FitsBehind(m, members, x, m.Next(x, level), n);
      } else {
        FitsElsewhere(m, members, x, m.Next(x, level), n, y, m.Next(y, level));
      }
      SameKeysSameLink(m, m', members + {n}, y, m'.Next(y, level));
    }
  }

  lemma PlaceFits(m: Memory, levels: Levels, level: nat, x: nat, n: nat)
    requires WellFormed(m, levels) && level < MAX_HEIGHT
    requires 0 < n && m.HasLink(n, level) && IsPlace(m, levels, m.nodes[n].key, level, x)
    requires n !in levels[level] && (level > 0 ==> n in levels[level - 1])
    requires level == 0 ==> m.nodes[n].key !in Keys(m, levels[0])
    ensures SortedLevel(m, levels[level], level) && DistinctKeys(m, levels[level])
    ensures Fits(m, levels[level], x, m.Next(x, level), n)
  {
    BelowBottom(m, levels, level);
    if level > 0 { BelowBottom(m, levels, level - 1); }
    assert SortedLevel(m, levels[level], level);
    forall y | y in levels[level] ensures m.nodes[y].key != m.nodes[n].key {
      assert y in levels[0];
      assert m.nodes[y].key in Keys(m, levels[0]);
    }
  }

  lemma OtherLevel(m: Memory, levels: Levels, x: nat, level: nat, p: Ptr, l: nat)
    requires WellFormed(m, levels) && m.HasLink(x, level) && l < MAX_HEIGHT && l != level
    ensures SortedLevel(m.SetNext(x, level, p), levels[l], l)
  {
    assert SortedLevel(m, levels[l], l);
    LevelUntouched(m, m.SetNext(x, level, p), levels[l], l);
  }

  ghost predicate ReadyToPublish(m: Memory, levels: Levels, level: nat, x: nat, n: nat) {
    && |levels| == MAX_HEIGHT && level < m.maxHeight <= MAX_HEIGHT
    && 0 < n && m.HasLink(n, level) && IsPlace(m, levels, m.nodes[n].key, level, x)
    && m.Next(n, level) == m.Next(x, level)
    && n !in levels[level] && (level > 0 ==> n in levels[level - 1])
    && (forall y :: y in levels[0] ==> y < |m.nodes|)
    && (level == 0 ==> m.nodes[n].key !in Keys(m, levels[0]))
  }

  lemma PublishedLevel(m: Memory, levels: Levels, level: nat, x: nat, n: nat)
    requires WellFormed(m, levels) && ReadyToPublish(m, levels, level, x, n)
    ensures SortedLevel(m.SetNext(x, level, To(n)), levels[level] + {n}, level)
  {
    PlaceFits(m, levels, level, x, n);
    PublishSorts(m, levels[level], level, x, n);
  }

  lemma PublishStore(m: Memory, levels: Levels, level: nat, x: nat, n: nat)
    requires WellFormed(m, levels) && ReadyToPublish(m, levels, level, x, n)
    ensures WellFormed(m.SetNext(x, level, To(n)), levels[level := levels[level] + {n}])
    ensures Grows(m, levels, m.SetNext(x, level, To(n)), levels[level := levels[level] + {n}])
  {
    var m' := m.SetNext(x, level, To(n));
    var levels' := levels[level := levels[level] + {n}];
    PublishedLevel(m, levels, level, x, n);
    forall l | 0 <= l < MAX_HEIGHT ensures SortedLevel(m', levels'[l], l) {
      if l != level { OtherLevel(m, levels, x, level, To(n), l); }
    }
    PublishDistinct(m, m', levels, level, n);
    PublishNested(levels, m.maxHeight, level, n);
  }

  lemma PublishNested(levels: Levels, maxHeight: nat, level: nat, n: nat)
    requires |levels| == MAX_HEIGHT && level < maxHeight
    requires Nested(levels, maxHeight) && level < MAX_HEIGHT
    requires level > 0 ==> n in levels[level - 1]
    ensures Nested(levels[level := levels[level] + {n}], maxHeight)
  {
  }

  lemma PublishDistinct(m: Memory, m': Memory, levels: Levels, level: nat, n: nat)
    requires WellFormed(m, levels) && level < MAX_HEIGHT && n < |m.nodes| == |m'.nodes|
    requires forall z :: 0 <= z < |m.nodes| ==> m'.nodes[z].key == m.nodes[z].key
    requires level == 0 ==> m.nodes[n].key !in Keys(m, levels[0])
    requires SortedLevel(m', levels[level := levels[level] + {n}][0], 0)
    ensures DistinctKeys(m', levels[level := levels[level] + {n}][0])
  {
    assert SortedLevel(m, levels[0], 0);
    forall y | y in levels[0] ensures m.nodes[y].key in Keys(m, levels[0]) {}
  }

  lemma {:induction false} BelowBottom(m: Memory, levels: Levels, level: nat)
    requires WellFormed(m, levels) && level < MAX_HEIGHT
    ensures levels[level] <= levels[0]
  {
    if level > 0 { BelowBottom(m, levels, level - 1); }
  }
}

/** The three searches, one pointer load at a time. */
module SkipListSearch {
  import opened SkipListMemory
  import opened SkipListStores

  datatype Kind = GreaterOrEqual | LessThan | Last

  /** The local variables of a search: x, level, and the prev array. */
  datatype Search = Search(kind: Kind, key: int, x: nat, level: nat, prev: seq<nat>)

  datatype Outcome = Going(search: Search) | Answer(p: Ptr, prev: seq<nat>)

  function Start(m: Memory, kind: Kind, key: int): Search
    requires 1 <= m.maxHeight
  {
    Search(kind, key, 0, m.maxHeight - 1, seq(MAX_HEIGHT, i => 0))
  }

  /** The loop guard shared by the three searches: is the loaded node still ahead of the target? */
  predicate KeepsGoing(m: Memory, kind: Kind, key: int, next: Ptr)
    requires next.To? ==> next.node < |m.nodes|
  {
    match kind
    case Last => next.To?
    case _ => m.KeyIsAfterNode(key, next)
  }

  predicate CanLoad(m: Memory, s: Search) {
    && m.HasLink(s.x, s.level)
    && s.level < |s.prev|
    && (m.Next(s.x, s.level).To? ==> m.Next(s.x, s.level).node < |m.nodes|)
  }

  /** One turn of the loop: load x->Next(level), then move right, drop a level, or return. */
  function Turn(m: Memory, s: Search): Outcome
    requires CanLoad(m, s)
  {
    var next := m.Next(s.x, s.level);
    if KeepsGoing(m, s.kind, s.key, next) then
      Going(s.(x := next.node))
    else
      var prev := s.prev[s.level := s.x];
      if s.level > 0 then Going(s.(level := s.level - 1, prev := prev))
      else Answer(if s.kind.GreaterOrEqual? then next else To(s.x), prev)
  }

  ghost predicate SearchInv(m: Memory, levels: Levels, s: Search) {
    && |levels| == |s.prev| == MAX_HEIGHT
    && s.level < MAX_HEIGHT && s.x < |m.nodes|
    && OnLevel(levels, s.level, s.x)
    && (s.kind != Last ==> m.Before(s.x, s.key))
  }

  /** The answer each search promises, for the list whose members are given. */
  ghost predicate IsAnswer(m: Memory, members: set<nat>, kind: Kind, key: int, p: Ptr)
    requires forall y :: y in members ==> y < |m.nodes|
  {
    match kind
    case GreaterOrEqual => IsEarliestFrom(m, members, key, p)
    case LessThan =>
      && p.To? && (p.node == 0 || p.node in members)
      && (p.node != 0 ==> m.nodes[p.node].key < key)
      && forall y :: y in members && m.nodes[y].key < key ==> p.node != 0 && m.nodes[y].key <= m.nodes[p.node].key
    case Last =>
      && p.To? && (p.node == 0 || p.node in members)
      && forall y :: y in members ==> p.node != 0 && m.nodes[y].key <= m.nodes[p.node].key
  }

  /** p is the earliest member at or after key, or NULL when there is none. */
  ghost predicate IsEarliestFrom(m: Memory, members: set<nat>, key: int, p: Ptr)
    requires forall y :: y in members ==> y < |m.nodes|
  {
    match p
    case Null => forall y :: y in members ==> m.nodes[y].key < key
    case To(n) =>
      && n in members && key <= m.nodes[n].key
      && forall y :: y in members && key <= m.nodes[y].key ==> m.nodes[n].key <= m.nodes[y].key
  }

  lemma CanAlwaysLoad(m: Memory, levels: Levels, s: Search)
    requires WellFormed(m, levels) && SearchInv(m, levels, s)
    ensures CanLoad(m, s) && IsLink(m, levels[s.level], s.x, m.Next(s.x, s.level))
  {
    assert SortedLevel(m, levels[s.level], s.level);
  }

  /** A turn keeps the search's invariant, and when it returns, its answer is the
      right one for the bottom list at that very load. */
  lemma TurnIsRight(m: Memory, levels: Levels, s: Search)
    requires WellFormed(m, levels) && SearchInv(m, levels, s)
    ensures CanLoad(m, s)
    ensures Turn(m, s).Going? ==> SearchInv(m, levels, Turn(m, s).search)
    ensures Turn(m, s).Answer? ==>
      Allocated(m, levels[0], 0) && IsAnswer(m, levels[0], s.kind, s.key, Turn(m, s).p)
  {
    CanAlwaysLoad(m, levels, s);
    assert SortedLevel(m, levels[0], 0);
    if Turn(m, s).Answer? {
      AnswerIsRight(m, levels[0], s.kind, s.key, s.x, m.Next(s.x, 0));
    }
  }

  lemma AnswerIsRight(m: Memory, members: set<nat>, kind: Kind, key: int, x: nat, next: Ptr)
    requires x < |m.nodes| && forall y :: y in members ==> 0 < y < |m.nodes|
    requires x == 0 || x in members
    requires IsLink(m, members, x, next) && !KeepsGoing(m, kind, key, next)
    requires kind != Last ==> m.Before(x, key)
    ensures IsAnswer(m, members, kind, key, if kind.GreaterOrEqual? then next else To(x))
  {
  }

  /** The stores of a writer never disturb a search in progress. */
  lemma SearchStable(m: Memory, levels: Levels, m': Memory, levels': Levels, s: Search)
    requires SearchInv(m, levels, s) && Grows(m, levels, m', levels')
    ensures SearchInv(m', levels', s)
  {
  }

  /** When a turn leaves a level, the node it stood on is the place of key there. */
  ghost predicate PlacesKnown(m: Memory, levels: Levels, key: int, from: nat, to: nat, prev: seq<nat>) {
    |prev| == MAX_HEIGHT && to <= MAX_HEIGHT &&
    forall l :: from <= l < to ==> IsPlace(m, levels, key, l, prev[l])
  }

  lemma TurnFindsPlaces(m: Memory, levels: Levels, s: Search)
    requires WellFormed(m, levels) && SearchInv(m, levels, s) && s.kind == GreaterOrEqual
    requires PlacesKnown(m, levels, s.key, s.level + 1, m.maxHeight, s.prev) && s.level < m.maxHeight
    ensures CanLoad(m, s)
    ensures Turn(m, s).Going? ==> var s' := Turn(m, s).search;
      && s'.kind == s.kind && s'.key == s.key && s'.level < m.maxHeight
      && PlacesKnown(m, levels, s.key, s'.level + 1, m.maxHeight, s'.prev)
    ensures Turn(m, s).Answer? ==> PlacesKnown(m, levels, s.key, 0, m.maxHeight, Turn(m, s).prev)
  {
    CanAlwaysLoad(m, levels, s);
  }
}

/** Runs: one writer inserting, any number of readers, interleaved step by step. */
module SkipListRuns {
  import opened SkipListMemory
  import opened SkipListStores
  import opened SkipListSearch

  datatype Reader = Running(search: Search) | Finished(kind: Kind, key: int, p: Ptr)

  /** Where Insert stands: searching, about to raise max_height_ or allocate, or
      linking node at one level (first copying the link, then publishing it). */
  datatype Writer =
    | Idle
    | Locating(search: Search, height: nat)
    | Located(key: int, height: nat, prev: seq<nat>)
    | Linking(node: nat, height: nat, prev: seq<nat>, level: nat, copied: bool)

  /** levels records, per level, which nodes have been published there; no step reads it. */
  datatype State = State(m: Memory, levels: Levels, writer: Writer, readers: map<nat, Reader>)

  datatype Step =
    | StartRead(thread: nat, kind: Kind, key: int)
    | Load(thread: nat)
    | StartInsert(key: int, height: nat)
    | WriterLoad
    | RaiseHeight
    | NewNode(junk: seq<Ptr>)    // the links of a new node start uninitialised
    | CopyLink
    | PublishLink

  ghost predicate Enabled(s: State, step: Step) {
    match step
    case StartRead(t, _, _) => 1 <= s.m.maxHeight && (t in s.readers ==> s.readers[t].Finished?)
    case Load(t) => t in s.readers && s.readers[t].Running? && CanLoad(s.m, s.readers[t].search)
    case StartInsert(key, height) =>
      && s.writer.Idle? && 1 <= s.m.maxHeight && 1 <= height <= MAX_HEIGHT
      && 0 < |s.levels| && (forall y :: y in s.levels[0] ==> y < |s.m.nodes|)
      && key !in Keys(s.m, s.levels[0])
    case WriterLoad => s.writer.Locating? && CanLoad(s.m, s.writer.search)
    case RaiseHeight => s.writer.Located? && s.writer.height > s.m.maxHeight && |s.writer.prev| == MAX_HEIGHT
    case NewNode(junk) => s.writer.Located? && s.writer.height <= s.m.maxHeight && |junk| == s.writer.height
    case CopyLink => s.writer.Linking? && !s.writer.copied && CanStore(s)
    case PublishLink => s.writer.Linking? && s.writer.copied && CanStore(s)
  }

  ghost predicate CanStore(s: State)
    requires s.writer.Linking?
  {
    var w := s.writer;
    && w.level < w.height && w.level < |w.prev| && w.level < |s.levels|
    && s.m.HasLink(w.node, w.level) && s.m.HasLink(w.prev[w.level], w.level)
  }

  ghost function Apply(s: State, step: Step): State
    requires Enabled(s, step)
  {
    match step
    case StartRead(t, kind, key) => s.(readers := s.readers[t := Running(Start(s.m, kind, key))])
    case Load(t) =>
      var search := s.readers[t].search;
      var r := match Turn(s.m, search)
               case Going(search') => Running(search')
               case Answer(p, _) => Finished(search.kind, search.key, p);
      s.(readers := s.readers[t := r])
    case StartInsert(key, height) => s.(writer := Locating(Start(s.m, GreaterOrEqual, key), height))
    case WriterLoad =>
      var w := s.writer;
      s.(writer := match Turn(s.m, w.search)
                   case Going(search') => Locating(search', w.height)
                   case Answer(_, prev) => Located(w.search.key, w.height, prev))
    case RaiseHeight =>
      var w := s.writer;
      s.(m := s.m.(maxHeight := w.height),
         writer := Located(w.key, w.height, seq(MAX_HEIGHT, i requires 0 <= i < MAX_HEIGHT =>
                     if s.m.maxHeight <= i < w.height then 0 else w.prev[i])))
    case NewNode(junk) =>
      var w := s.writer;
      s.(m := s.m.(nodes := s.m.nodes + [Node(w.key, junk)]),
         writer := Linking(|s.m.nodes|, w.height, w.prev, 0, false))
    case CopyLink =>
      var w := s.writer;
      s.(m := s.m.SetNext(w.node, w.level, s.m.Next(w.prev[w.level], w.level)),
         writer := w.(copied := true))
    case PublishLink =>
      var w := s.writer;
      s.(m := s.m.SetNext(w.prev[w.level], w.level, To(w.node)),
         levels := s.levels[w.level := s.levels[w.level] + {w.node}],
         writer := if w.level + 1 == w.height then Idle else w.(level := w.level + 1, copied := false))
  }

  // ---------------------------------------------------------------- invariant

  ghost predicate WriterInv(s: State)
    requires WellFormed(s.m, s.levels) && Allocated(s.m, s.levels[0], 0)
  {
    match s.writer
    case Idle => true
    case Locating(search, height) =>
      && 1 <= height <= MAX_HEIGHT
      && SearchInv(s.m, s.levels, search) && search.kind == GreaterOrEqual
      && search.level < s.m.maxHeight
      && PlacesKnown(s.m, s.levels, search.key, search.level + 1, s.m.maxHeight, search.prev)
      && search.key !in Keys(s.m, s.levels[0])
    case Located(key, height, prev) =>
      && 1 <= height <= MAX_HEIGHT
      && PlacesKnown(s.m, s.levels, key, 0, s.m.maxHeight, prev)
      && key !in Keys(s.m, s.levels[0])
    case Linking(node, height, prev, level, copied) =>
      && level < height <= s.m.maxHeight
      && 0 < node < |s.m.nodes| && |s.m.nodes[node].next| == height
      && (forall l :: 0 <= l < MAX_HEIGHT ==> (node in s.levels[l] <==> l < level))
      && PlacesKnown(s.m, s.levels, s.m.nodes[node].key, level, height, prev)
      && (level == 0 ==> s.m.nodes[node].key !in Keys(s.m, s.levels[0]))
      && (copied ==> s.m.Next(node, level) == s.m.Next(prev[level], level))
  }

  ghost predicate ReadersInv(s: State) {
    forall t :: t in s.readers && s.readers[t].Running? ==> SearchInv(s.m, s.levels, s.readers[t].search)
  }

  ghost predicate Inv(s: State) {
    && WellFormed(s.m, s.levels)
    && Allocated(s.m, s.levels[0], 0)
    && WriterInv(s)
    && ReadersInv(s)
    && TowersComplete(s)
  }

  /** A node on the bottom list is on every level of its height, but for those Insert has yet to link. */
  ghost predicate TowersComplete(s: State)
    requires WellFormed(s.m, s.levels) && Allocated(s.m, s.levels[0], 0)
  {
    forall x, l :: x in s.levels[0] && 0 <= l < MAX_HEIGHT && l < |s.m.nodes[x].next| ==>
      x in s.levels[l] || (s.writer.Linking? && s.writer.node == x && s.writer.level <= l)
  }

  function Initial(): State {
    State(Empty(), seq(MAX_HEIGHT, i => {}), Idle, map[])
  }

  lemma InitialInv()
    ensures Inv(Initial())
  {
  }

  lemma ReadersStable(s: State, s': State)
    requires ReadersInv(s) && s'.readers == s.readers && Grows(s.m, s.levels, s'.m, s'.levels)
    ensures ReadersInv(s')
  {
    forall t | t in s'.readers && s'.readers[t].Running? ensures SearchInv(s'.m, s'.levels, s'.readers[t].search) {
      SearchStable(s.m, s.levels, s'.m, s'.levels, s.readers[t].search);
    }
  }

  lemma StartReadInv(s: State, t: nat, kind: Kind, key: int)
    requires Inv(s) && Enabled(s, StartRead(t, kind, key))
    ensures Inv(Apply(s, StartRead(t, kind, key)))
  {
  }

  lemma LoadInv(s: State, t: nat)
    requires Inv(s) && Enabled(s, Load(t))
    ensures Inv(Apply(s, Load(t)))
  {
    TurnIsRight(s.m, s.levels, s.readers[t].search);
  }

  lemma StartInsertInv(s: State, key: int, height: nat)
    requires Inv(s) && Enabled(s, StartInsert(key, height))
    ensures Inv(Apply(s, StartInsert(key, height)))
  {
  }

  lemma WriterLoadInv(s: State)
    requires Inv(s) && Enabled(s, WriterLoad)
    ensures Inv(Apply(s, WriterLoad))
  {
    TurnIsRight(s.m, s.levels, s.writer.search);
    TurnFindsPlaces(s.m, s.levels, s.writer.search);
  }

  lemma RaiseHeightInv(s: State)
    requires Inv(s) && Enabled(s, RaiseHeight)
    ensures Inv(Apply(s, RaiseHeight))
    ensures Grows(s.m, s.levels, Apply(s, RaiseHeight).m, s.levels)
  {
    var s' := Apply(s, RaiseHeight);
    HeightStore(s.m, s.levels, s.writer.height);
    ReadersStable(s, s');
    forall l | 0 <= l < s'.m.maxHeight ensures IsPlace(s'.m, s.levels, s.writer.key, l, s'.writer.prev[l]) {
      if l < s.m.maxHeight {
        assert IsPlace(s.m, s.levels, s.writer.key, l, s.writer.prev[l]);
      } else {
        assert SortedLevel(s.m, s.levels[l], l);
        assert IsLink(s.m, s.levels[l], 0, s.m.Next(0, l));
      }
    }
  }

  lemma NewNodeInv(s: State, junk: seq<Ptr>)
    requires Inv(s) && Enabled(s, NewNode(junk))
    ensures Inv(Apply(s, NewNode(junk)))
    ensures Grows(s.m, s.levels, Apply(s, NewNode(junk)).m, s.levels)
  {
    var s' := Apply(s, NewNode(junk));
    var n := |s.m.nodes|;
    Allocation(s.m, s.levels, Node(s.writer.key, junk));
    ReadersStable(s, s');
    forall l | 0 <= l < MAX_HEIGHT ensures n !in s.levels[l] {
      assert SortedLevel(s.m, s.levels[l], l);
    }
    forall l | 0 <= l < s.writer.height ensures IsPlace(s'.m, s.levels, s.writer.key, l, s.writer.prev[l]) {
      assert IsPlace(s.m, s.levels, s.writer.key, l, s.writer.prev[l]);
    }
    assert Keys(s'.m, s.levels[0]) == Keys(s.m, s.levels[0]);
  }

  lemma PlacesAfterCopy(s: State, l: nat)
    requires Inv(s) && Enabled(s, CopyLink) && s.writer.level <= l < s.writer.height
    ensures IsPlace(Apply(s, CopyLink).m, s.levels, s.m.nodes[s.writer.node].key, l, s.writer.prev[l])
  {
    assert IsPlace(s.m, s.levels, s.m.nodes[s.writer.node].key, l, s.writer.prev[l]);
  }

  lemma CopyStoreInv(s: State)
    requires Inv(s) && Enabled(s, CopyLink)
    ensures WellFormed(Apply(s, CopyLink).m, s.levels)
    ensures Grows(s.m, s.levels, Apply(s, CopyLink).m, s.levels)
  {
    var w := s.writer;
    PrivateStore(s.m, s.levels, w.node, w.level, s.m.Next(w.prev[w.level], w.level));
  }

  lemma CopyLinkInv(s: State)
    requires Inv(s) && Enabled(s, CopyLink)
    ensures Inv(Apply(s, CopyLink))
    ensures Grows(s.m, s.levels, Apply(s, CopyLink).m, s.levels)
  {
    var s' := Apply(s, CopyLink);
    CopyStoreInv(s);
    ReadersStable(s, s');
    forall l | s.writer.level <= l < s.writer.height
      ensures IsPlace(s'.m, s.levels, s.m.nodes[s.writer.node].key, l, s.writer.prev[l])
    {
      PlacesAfterCopy(s, l);
    }
    KeysKept(s.m, s'.m, s.levels[0]);
  }

  lemma OtherPlaces(s: State, l: nat)
    requires Inv(s) && Enabled(s, PublishLink) && s.writer.level < l < s.writer.height
    requires Grows(s.m, s.levels, Apply(s, PublishLink).m, Apply(s, PublishLink).levels)
    ensures IsPlace(Apply(s, PublishLink).m, Apply(s, PublishLink).levels,
                    s.m.nodes[s.writer.node].key, l, s.writer.prev[l])
  {
    assert IsPlace(s.m, s.levels, s.m.nodes[s.writer.node].key, l, s.writer.prev[l]);
  }

  lemma PublishStoreInv(s: State)
    requires Inv(s) && Enabled(s, PublishLink)
    ensures WellFormed(Apply(s, PublishLink).m, Apply(s, PublishLink).levels)
    ensures Grows(s.m, s.levels, Apply(s, PublishLink).m, Apply(s, PublishLink).levels)
  {
    var w := s.writer;
    assert IsPlace(s.m, s.levels, s.m.nodes[w.node].key, w.level, w.prev[w.level]);
    PublishStore(s.m, s.levels, w.level, w.prev[w.level], w.node);
  }

  lemma PublishWriterInv(s: State)
    requires Inv(s) && Enabled(s, PublishLink)
    requires WellFormed(Apply(s, PublishLink).m, Apply(s, PublishLink).levels)
    requires Allocated(Apply(s, PublishLink).m, Apply(s, PublishLink).levels[0], 0)
    requires Grows(s.m, s.levels, Apply(s, PublishLink).m, Apply(s, PublishLink).levels)
    ensures WriterInv(Apply(s, PublishLink))
  {
    forall l | s.writer.level < l < s.writer.height
      ensures IsPlace(Apply(s, PublishLink).m, Apply(s, PublishLink).levels,
                      s.m.nodes[s.writer.node].key, l, s.writer.prev[l])
    {
      OtherPlaces(s, l);
    }
  }

  lemma PublishTowers(s: State)
    requires Inv(s) && Enabled(s, PublishLink)
    requires WellFormed(Apply(s, PublishLink).m, Apply(s, PublishLink).levels)
    requires Allocated(Apply(s, PublishLink).m, Apply(s, PublishLink).levels[0], 0)
    ensures TowersComplete(Apply(s, PublishLink))
  {
    var s', w := Apply(s, PublishLink), s.writer;
    forall x, l | x in s'.levels[0] && 0 <= l < MAX_HEIGHT && l < |s'.m.nodes[x].next|
      ensures x in s'.levels[l] || (s'.writer.Linking? && s'.writer.node == x && s'.writer.level <= l)
    {
      assert |s'.m.nodes[x].next| == |s.m.nodes[x].next|;
      if x != w.node { assert x in s.levels[0]; }
    }
  }

  lemma PublishLinkInv(s: State)
    requires Inv(s) && Enabled(s, PublishLink)
    ensures Inv(Apply(s, PublishLink))
    ensures Grows(s.m, s.levels, Apply(s, PublishLink).m, Apply(s, PublishLink).levels)
  {
    var s' := Apply(s, PublishLink);
    PublishStoreInv(s);
    ReadersStable(s, s');
    assert SortedLevel(s'.m, s'.levels[0], 0);
    PublishWriterInv(s);
    PublishTowers(s);
  }

  /** Every step keeps the invariant, and nothing a reader could find ever disappears. */
  lemma StepInv(s: State, step: Step)
    requires Inv(s) && Enabled(s, step)
    ensures Inv(Apply(s, step))
    ensures Grows(s.m, s.levels, Apply(s, step).m, Apply(s, step).levels)
  {
    match step
    case StartRead(t, kind, key) => StartReadInv(s, t, kind, key);
    case Load(t) => LoadInv(s, t);
    case StartInsert(key, height) => StartInsertInv(s, key, height);
    case WriterLoad => WriterLoadInv(s);
    case RaiseHeight => RaiseHeightInv(s);
    case NewNode(junk) => NewNodeInv(s, junk);
    case CopyLink => CopyLinkInv(s);
    case PublishLink => PublishLinkInv(s);
  }

  /** No load or store ever follows a NULL or uninitialised pointer: a running read can
      always load, and an unfinished Insert always has its next step. */
  lemma NeverStuck(s: State, t: nat, junk: seq<Ptr>)
    requires Inv(s)
    ensures t in s.readers && s.readers[t].Running? ==> Enabled(s, Load(t))
    ensures match s.writer
      case Idle => true
      case Locating(_, _) => Enabled(s, WriterLoad)
      case Located(_, height, _) => |junk| == height ==> Enabled(s, RaiseHeight) || Enabled(s, NewNode(junk))
      case Linking(_, _, _, _, copied) => Enabled(s, if copied then PublishLink else CopyLink)
  {
    if t in s.readers && s.readers[t].Running? {
      CanAlwaysLoad(s.m, s.levels, s.readers[t].search);
    }
    if s.writer.Locating? {
      CanAlwaysLoad(s.m, s.levels, s.writer.search);
    } else if s.writer.Linking? {
      var w := s.writer;
      assert IsPlace(s.m, s.levels, s.m.nodes[w.node].key, w.level, w.prev[w.level]);
    }
  }

  // --------------------------------------------------------------- whole runs

  ghost predicate IsRun(states: seq<State>, steps: seq<Step>) {
    && |states| == |steps| + 1
    && states[0] == Initial()
    && forall i :: 0 <= i < |steps| ==> Enabled(states[i], steps[i]) && states[i + 1] == Apply(states[i], steps[i])
  }

  lemma {:induction false} RunInv(states: seq<State>, steps: seq<Step>, i: nat)
    requires IsRun(states, steps) && i < |states|
    ensures Inv(states[i])
  {
    if i == 0 {
      InitialInv();
    } else {
      RunInv(states, steps, i - 1);
      StepInv(states[i - 1], steps[i - 1]);
    }
  }

  lemma {:induction false} RunGrows(states: seq<State>, steps: seq<Step>, i: nat, j: nat)
    requires IsRun(states, steps) && i <= j < |states|
    ensures Grows(states[i].m, states[i].levels, states[j].m, states[j].levels)
    decreases j
  {
    if i < j {
      RunGrows(states, steps, i, j - 1);
      RunInv(states, steps, j - 1);
      StepInv(states[j - 1], steps[j - 1]);
      GrowsTransitive(states[i].m, states[i].levels, states[j - 1].m, states[j - 1].levels, states[j].m,
        states[j].levels);
    }
  }

  /** The keys on the bottom list of a state. */
  ghost function Contents(s: State): set<int>
    requires Inv(s)
  {
    Keys(s.m, s.levels[0])
  }

  lemma ContentsGrow(states: seq<State>, steps: seq<Step>, i: nat, j: nat)
    requires IsRun(states, steps) && i <= j < |states|
    ensures Inv(states[i]) && Inv(states[j]) && Contents(states[i]) <= Contents(states[j])
  {
    RunInv(states, steps, i);
    RunInv(states, steps, j);
    RunGrows(states, steps, i, j);
  }

  /** The read thread t began at step i is still under way in state j. */
  ghost predicate Reading(states: seq<State>, steps: seq<Step>, t: nat, i: nat, j: nat) {
    && i < j < |states| && i < |steps|
    && steps[i].StartRead? && steps[i].thread == t
    && forall k :: i < k <= j ==> t in states[k].readers && states[k].readers[t].Running?
  }

  lemma {:induction false} ReadKeepsTarget(states: seq<State>, steps: seq<Step>, t: nat, i: nat, j: nat)
    requires IsRun(states, steps) && Reading(states, steps, t, i, j)
    ensures states[j].readers[t].search.kind == steps[i].kind
    ensures states[j].readers[t].search.key == steps[i].key
    decreases j
  {
    if j > i + 1 {
      ReadKeepsTarget(states, steps, t, i, j - 1);
      StepKeepsTarget(states[j - 1], steps[j - 1], t);
    }
  }

  lemma StepKeepsTarget(s: State, step: Step, t: nat)
    requires Enabled(s, step) && t in s.readers && s.readers[t].Running?
    ensures t in Apply(s, step).readers
    ensures match Apply(s, step).readers[t]
      case Running(search) => search.kind == s.readers[t].search.kind && search.key == s.readers[t].search.key
      case Finished(kind, key, _) => kind == s.readers[t].search.kind && key == s.readers[t].search.key
  {
  }

  /** Linearisability of reads: whatever ran in between, a search that ends with the
      load of step j answers for the bottom list as it is at that load, and that list
      holds every key that was there when the search began. */
  lemma ReadsAreLinearisable(states: seq<State>, steps: seq<Step>, t: nat, i: nat, j: nat)
    requires IsRun(states, steps) && Reading(states, steps, t, i, j) && j < |steps|
    requires steps[j] == Load(t) && states[j + 1].readers[t].Finished?
    ensures Inv(states[i]) && Inv(states[j]) && Contents(states[i]) <= Contents(states[j])
    ensures states[j + 1].readers[t].kind == steps[i].kind && states[j + 1].readers[t].key == steps[i].key
    ensures IsAnswer(states[j].m, states[j].levels[0], steps[i].kind, steps[i].key, states[j + 1].readers[t].p)
  {
    ContentsGrow(states, steps, i, j);
    ReadKeepsTarget(states, steps, t, i, j);
    assert Enabled(states[j], steps[j]) && states[j + 1] == Apply(states[j], steps[j]);
    TurnIsRight(states[j].m, states[j].levels, states[j].readers[t].search);
  }

  /** Contains, applied to the node FindGreaterOrEqual returned. */
  predicate Found(m: Memory, key: int, p: Ptr)
    requires p.To? ==> p.node < |m.nodes|
  {
    p.To? && m.nodes[p.node].key == key
  }

  lemma FoundIffPresent(m: Memory, members: set<nat>, key: int, p: Ptr)
    requires forall y :: y in members ==> y < |m.nodes|
    requires IsAnswer(m, members, GreaterOrEqual, key, p)
    ensures Found(m, key, p) <==> key in Keys(m, members)
  {
    if key in Keys(m, members) {
      var y :| y in members && m.nodes[y].key == key;
    }
  }

  /** A key linked before the search began is always found, and a key reported found is there. */
  lemma ContainsIsLinearisable(states: seq<State>, steps: seq<Step>, t: nat, i: nat, j: nat)
    requires IsRun(states, steps) && Reading(states, steps, t, i, j) && j < |steps|
    requires steps[i].kind == GreaterOrEqual
    requires steps[j] == Load(t) && states[j + 1].readers[t].Finished?
    ensures Inv(states[i]) && Inv(states[j])
    ensures states[j + 1].readers[t].p.To? ==> states[j + 1].readers[t].p.node < |states[j].m.nodes|
    ensures Found(states[j].m, steps[i].key, states[j + 1].readers[t].p) <==> steps[i].key in Contents(states[j])
    ensures steps[i].key in Contents(states[i]) ==> Found(states[j].m, steps[i].key, states[j + 1].readers[t].p)
  {
    ReadsAreLinearisable(states, steps, t, i, j);
    FoundIffPresent(states[j].m, states[j].levels[0], steps[i].key, states[j + 1].readers[t].p);
  }

  /** Insert takes effect in one step, the bottom-level publish: no other step changes
      what readers can find, and that one adds exactly the new key. */
  lemma InsertTakesEffectOnce(s: State, step: Step)
    requires Inv(s) && Enabled(s, step)
    ensures Inv(Apply(s, step))
    ensures Contents(Apply(s, step)) ==
      if step.PublishLink? && s.writer.level == 0 then Contents(s) + {s.m.nodes[s.writer.node].key} else Contents(s)
  {
    StepInv(s, step);
    var s' := Apply(s, step);
    KeysKept(s.m, s'.m, s.levels[0]);
    if step.PublishLink? && s.writer.level == 0 {
      KeysAdded(s'.m, s.levels[0], s.writer.node);
    } else {
      assert s'.levels[0] == s.levels[0];
    }
  }

  lemma KeysKept(m: Memory, m': Memory, members: set<nat>)
    requires forall y :: y in members ==> y < |m.nodes|
    requires |m.nodes| <= |m'.nodes| && forall x :: 0 <= x < |m.nodes| ==> m'.nodes[x].key == m.nodes[x].key
    ensures Keys(m', members) == Keys(m, members)
  {
  }

  lemma KeysAdded(m: Memory, members: set<nat>, n: nat)
    requires n < |m.nodes| && forall y :: y in members ==> y < |m.nodes|
    ensures Keys(m, members + {n}) == Keys(m, members) + {m.nodes[n].key}
  {
    assert n in members + {n};
    assert forall y :: y in members ==> y in members + {n};
  }

  /** The key and height an Insert under way was asked for. */
  ghost function Request(s: State): (int, nat)
    requires s.writer.Linking? ==> s.writer.node < |s.m.nodes|
    requires !s.writer.Idle?
  {
    match s.writer
    case Locating(search, height) => (search.key, height)
    case Located(key, height, _) => (key, height)
    case Linking(node, height, _, _, _) => (s.m.nodes[node].key, |s.m.nodes[node].next|)
  }

  /** An Insert works on the key and height it was asked for from its first step to its
      last, and when it returns its node is on every level of that height. */
  lemma InsertKeepsRequest(s: State, step: Step)
    requires Inv(s) && Enabled(s, step)
    ensures Inv(Apply(s, step))
    ensures step.StartInsert? ==> Request(Apply(s, step)) == (step.key, step.height)
    ensures !s.writer.Idle? && !Apply(s, step).writer.Idle? ==> Request(Apply(s, step)) == Request(s)
    ensures !s.writer.Idle? && Apply(s, step).writer.Idle? ==>
      && s.writer.Linking?
      && forall l :: 0 <= l < Request(s).1 ==> s.writer.node in Apply(s, step).levels[l]
  {
    StepInv(s, step);
  }
}

/** The operations as the code runs them when no reader is looking. */
module SkipListOperations {
  import opened SkipListMemory
  import opened SkipListSearch
  import opened SkipListRuns

  lemma LinkOneLevel(s: State)
    requires Inv(s) && s.writer.Linking? && !s.writer.copied
    ensures Enabled(s, CopyLink) && Enabled(Apply(s, CopyLink), PublishLink)
    ensures var s' := Apply(Apply(s, CopyLink), PublishLink);
      && Inv(s')
      && |s'.m.nodes| == |s.m.nodes| && s'.m.nodes[s.writer.node].key == s.m.nodes[s.writer.node].key
      && Contents(s') == if s.writer.level == 0 then Contents(s) + {s.m.nodes[s.writer.node].key} else Contents(s)
  {
    NeverStuck(s, 0, []);
    InsertTakesEffectOnce(s, CopyLink);
    NeverStuck(Apply(s, CopyLink), 0, []);
    InsertTakesEffectOnce(Apply(s, CopyLink), PublishLink);
  }

  class SkipList {
    var m: Memory
    ghost var levels: Levels

    /** A state of the protocol with Insert not running. */
    ghost predicate Valid()
      reads this
    {
      Inv(State(m, levels, Idle, map[]))
    }

    ghost function Elements(): set<int>
      reads this
      requires Valid()
    {
      Keys(m, levels[0])
    }

    constructor ()
      ensures Valid() && Elements() == {}
    {
      m := Empty();
      levels := seq(MAX_HEIGHT, i => {});
      new;
      InitialInv();
    }

    method FindGreaterOrEqual(key: int) returns (p: Ptr, prev: seq<nat>)
      requires Valid()
      ensures IsAnswer(m, levels[0], GreaterOrEqual, key, p)
      ensures PlacesKnown(m, levels, key, 0, m.maxHeight, prev)
    {
      var x: nat, level: nat := 0, m.maxHeight - 1;
      prev := seq(MAX_HEIGHT, i => 0);
      ghost var s := Start(m, GreaterOrEqual, key);
      while true
        invariant s == Search(GreaterOrEqual, key, x, level, prev) && SearchInv(m, levels, s)
        invariant level < m.maxHeight && PlacesKnown(m, levels, key, level + 1, m.maxHeight, prev)
        decreases level, After(m, levels[level], x)
      {
        TurnIsRight(m, levels, s);
        TurnFindsPlaces(m, levels, s);
        assert SortedLevel(m, levels[level], level);
        var next := m.Next(x, level);
        if m.KeyIsAfterNode(key, next) {
          AfterShrinks(m, levels[level], level, x, next.node);
          x := next.node;
        } else {
          prev := prev[level := x];
          if level == 0 {
            return next, prev;
          }
          level := level - 1;
        }
        s := Turn(m, s).search;
      }
    }

    method FindLessThan(key: int) returns (x: nat)
      requires Valid()
      ensures IsAnswer(m, levels[0], LessThan, key, To(x))
    {
      x := 0;
      var level: nat := m.maxHeight - 1;
      while true
        invariant level < MAX_HEIGHT && x < |m.nodes| && OnLevel(levels, level, x) && m.Before(x, key)
        decreases level, After(m, levels[level], x)
      {
        assert SortedLevel(m, levels[level], level);
        assert IsLink(m, levels[level], x, m.Next(x, level));
        var next := m.Next(x, level);
        if next.Null? || m.nodes[next.node].key >= key {
          if level == 0 {
            AnswerIsRight(m, levels[0], LessThan, key, x, next);
            return;
          }
          level := level - 1;
        } else {
          AfterShrinks(m, levels[level], level, x, next.node);
          x := next.node;
        }
      }
    }

    method FindLast() returns (x: nat)
      requires Valid()
      ensures IsAnswer(m, levels[0], Last, 0, To(x))
    {
      x := 0;
      var level: nat := m.maxHeight - 1;
      while true
        invariant level < MAX_HEIGHT && x < |m.nodes| && OnLevel(levels, level, x)
        decreases level, After(m, levels[level], x)
      {
        assert SortedLevel(m, levels[level], level);
        assert IsLink(m, levels[level], x, m.Next(x, level));
        var next := m.Next(x, level);
        if next.Null? {
          if level == 0 {
            AnswerIsRight(m, levels[0], Last, 0, x, next);
            return;
          }
          level := level - 1;
        } else {
          AfterShrinks(m, levels[level], level, x, next.node);
          x := next.node;
        }
      }
    }

    method Contains(key: int) returns (found: bool)
      requires Valid()
      ensures found <==> key in Elements()
    {
      var p, _ := FindGreaterOrEqual(key);
      found := p.To? && m.nodes[p.node].key == key;
      FoundIffPresent(m, levels[0], key, p);
    }

    /** Insert at level i of n's tower, with no reader running. */
    ghost function At(i: nat, n: nat, height: nat, prev: seq<nat>): State
      reads this
    {
      State(m, levels, if i < height then Linking(n, height, prev, i, false) else Idle, map[])
    }

    method LinkLevel(i: nat, n: nat, height: nat, prev: seq<nat>)
      requires i < height && Inv(At(i, n, height, prev))
      modifies this
      ensures Inv(At(i + 1, n, height, prev)) && n < |m.nodes| && m.nodes[n].key == old(m.nodes[n].key)
      ensures Keys(m, levels[0]) == old(Keys(m, levels[0]) + if i == 0 then {m.nodes[n].key} else {})
    {
      LinkOneLevel(At(i, n, height, prev));
      m := m.SetNext(n, i, m.Next(prev[i], i));
      m := m.SetNext(prev[i], i, To(n));
      levels := levels[i := levels[i] + {n}];
    }

    /** Insert's linking loop, bottom level first. */
    method LinkNode(n: nat, height: nat, prev: seq<nat>)
      requires 1 <= height && Inv(At(0, n, height, prev))
      modifies this
      ensures Valid() && Elements() == old(Keys(m, levels[0]) + {m.nodes[n].key})
    {
      for i := 0 to height
        invariant Inv(At(i, n, height, prev)) && n < |m.nodes| && m.nodes[n].key == old(m.nodes[n].key)
        invariant Keys(m, levels[0]) == old(Keys(m, levels[0]) + if i == 0 then {} else {m.nodes[n].key})
      {
        LinkLevel(i, n, height, prev);
      }
    }

    /** height is what RandomHeight returned. */
    method Insert(key: int, height: nat)
      requires Valid() && key !in Elements()
      requires 1 <= height <= MAX_HEIGHT
      modifies this
      ensures Valid() && Elements() == old(Elements()) + {key}
    {
      var x, prev := FindGreaterOrEqual(key);
      ghost var s := State(m, levels, Located(key, height, prev), map[]);
      var top := m.maxHeight;
      if height > top {
        InsertTakesEffectOnce(s, RaiseHeight);
        s := Apply(s, RaiseHeight);
        prev := seq(MAX_HEIGHT, i requires 0 <= i < MAX_HEIGHT => if top <= i < height then 0 else prev[i]);
        m := m.(maxHeight := height);
      }
      var n, junk := |m.nodes|, seq(height, i => Null);
      InsertTakesEffectOnce(s, NewNode(junk));
      s := Apply(s, NewNode(junk));
      m := m.(nodes := m.nodes + [Node(key, junk)]);
      LinkNode(n, height, prev);
    }
  }
}

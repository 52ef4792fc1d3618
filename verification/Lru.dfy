/**
  The LRU cache of include/pdlfs-common/lru.h: entries on two circular lists, found through
  a hash table, kept alive by reference counts.
 */
module LruLists {

  /** The dummy heads of the two lists, and the entries. */
  datatype Node = InUse | Lru | Entry(id: nat)

  datatype Place = Place(inUse: bool, i: nat)

  /** The next and prev fields, and the lists they make; place says where each entry is. */
  datatype Fields = Fields(next: map<Node, Node>, prev: map<Node, Node>)

  datatype Lists = Lists(f: Fields, inUse: seq<nat>, lru: seq<nat>, place: map<nat, Place>)

  function Head(inUse: bool): Node { if inUse then InUse else Lru }

  /** Position i of the ring of a list: the head at both ends. */
  function NodeAt(inUse: bool, s: seq<nat>, i: nat): Node {
    if 0 < i <= |s| then Entry(s[i - 1]) else Head(inUse)
  }

  /** Positions i and i + 1 are linked both ways. */
  ghost predicate JoinAt(f: Fields, inUse: bool, s: seq<nat>, i: nat) {
    && NodeAt(inUse, s, i) in f.next && f.next[NodeAt(inUse, s, i)] == NodeAt(inUse, s, i + 1)
    && NodeAt(inUse, s, i + 1) in f.prev && f.prev[NodeAt(inUse, s, i + 1)] == NodeAt(inUse, s, i)
  }

  ghost predicate Ring(f: Fields, inUse: bool, s: seq<nat>) {
    forall i {:trigger JoinAt(f, inUse, s, i)} :: 0 <= i <= |s| ==> JoinAt(f, inUse, s, i)
  }

  ghost predicate PlacedAt(place: map<nat, Place>, inUse: bool, s: seq<nat>, i: nat)
    requires i < |s|
  {
    s[i] in place && place[s[i]] == Place(inUse, i)
  }

  ghost predicate AllPlaced(place: map<nat, Place>, inUse: bool, s: seq<nat>) {
    forall i {:trigger PlacedAt(place, inUse, s, i)} :: 0 <= i < |s| ==> PlacedAt(place, inUse, s, i)
  }

  function ListOf(l: Lists, inUse: bool): seq<nat> { if inUse then l.inUse else l.lru }

  ghost predicate Found(l: Lists, e: nat)
    requires e in l.place
  {
    var s := ListOf(l, l.place[e].inUse);
    l.place[e].i < |s| && s[l.place[e].i] == e
  }

  ghost predicate Ok(l: Lists) {
    && Ring(l.f, true, l.inUse) && Ring(l.f, false, l.lru)
    && AllPlaced(l.place, true, l.inUse) && AllPlaced(l.place, false, l.lru)
    && forall e {:trigger Found(l, e)} :: e in l.place ==> Found(l, e)
  }

  type GoodLists = l: Lists | Ok(l) ghost witness Empty()

  function Empty(): Lists {
    var self := map[InUse := InUse, Lru := Lru];
    Lists(Fields(self, self), [], [], map[])
  }

  lemma Assembled(s: Lists) returns (l: GoodLists)
    requires Ring(s.f, true, s.inUse) && Ring(s.f, false, s.lru)
    requires AllPlaced(s.place, true, s.inUse) && AllPlaced(s.place, false, s.lru)
    requires forall e {:trigger Found(s, e)} :: e in s.place ==> Found(s, e)
    ensures l == s
  {
    l := s;
  }

  // ------------------------------------------------------------------- LRU_Remove

  function Unlinked(f: Fields, e: Node): Fields
    requires e in f.next && e in f.prev
  {
    Fields(f.next[f.prev[e] := f.next[e]], f.prev[f.next[e] := f.prev[e]])
  }

  function Without(s: seq<nat>, k: nat): seq<nat>
    requires k < |s|
  {
    s[..k] + s[k + 1..]
  }

  ghost predicate Distinct(s: seq<nat>) {
    forall i, j :: 0 <= i < j < |s| ==> s[i] != s[j]
  }

  /** Positions of a ring are different nodes, heads apart. */
  lemma NodesDiffer(inUse: bool, s: seq<nat>, i: nat, j: nat)
    requires Distinct(s) && i != j && ((i <= |s| && j <= |s|) || (0 < i <= |s| + 1 && 0 < j <= |s| + 1))
    ensures NodeAt(inUse, s, i) != NodeAt(inUse, s, j)
  {
  }

  lemma UnlinkRing(f: Fields, inUse: bool, s: seq<nat>, k: nat)
    requires Ring(f, inUse, s) && Distinct(s) && k < |s|
    ensures Entry(s[k]) in f.next && Entry(s[k]) in f.prev
    ensures Ring(Unlinked(f, Entry(s[k])), inUse, Without(s, k))
  {
    assert JoinAt(f, inUse, s, k) && JoinAt(f, inUse, s, k + 1);
    var f', s' := Unlinked(f, Entry(s[k])), Without(s, k);
    forall i | 0 <= i <= |s'| ensures JoinAt(f', inUse, s', i) {
      UnlinkJoin(f, inUse, s, k, i);
    }
  }

  lemma UnlinkJoin(f: Fields, inUse: bool, s: seq<nat>, k: nat, i: nat)
    requires Ring(f, inUse, s) && Distinct(s) && k < |s| && i < |s|
    requires Entry(s[k]) in f.next && Entry(s[k]) in f.prev
    requires f.prev[Entry(s[k])] == NodeAt(inUse, s, k) && f.next[Entry(s[k])] == NodeAt(inUse, s, k + 2)
    ensures JoinAt(Unlinked(f, Entry(s[k])), inUse, Without(s, k), i)
  {
    var s' := Without(s, k);
    var j := if i <= k then i else i + 1;
    assert NodeAt(inUse, s', i) == NodeAt(inUse, s, j);
    assert NodeAt(inUse, s', i + 1) == NodeAt(inUse, s, if i < k then i + 1 else i + 2);
    if i != k {
      assert JoinAt(f, inUse, s, j);
      NodesDiffer(inUse, s, j, k);
      NodesDiffer(inUse, s, j + 1, k + 2);
    }
  }

  ghost predicate OutOf(x: Node, s: seq<nat>) {
    forall i :: 0 <= i < |s| ==> x != Entry(s[i])
  }

  /** Writing one next and one prev field outside a ring leaves it as it is. */
  lemma RingFrame(f: Fields, inUse: bool, s: seq<nat>, x: Node, x': Node, y: Node, y': Node)
    requires Ring(f, inUse, s) && x != Head(inUse) && y != Head(inUse)
    requires OutOf(x, s) && OutOf(y, s)
    ensures Ring(Fields(f.next[x := x'], f.prev[y := y']), inUse, s)
  {
    var f' := Fields(f.next[x := x'], f.prev[y := y']);
    forall i | 0 <= i <= |s| ensures JoinAt(f', inUse, s, i) { assert JoinAt(f, inUse, s, i); }
  }

  lemma PlacedIsDistinct(place: map<nat, Place>, inUse: bool, s: seq<nat>)
    requires AllPlaced(place, inUse, s)
    ensures Distinct(s)
  {
    forall i, j | 0 <= i < j < |s| ensures s[i] != s[j] {
      assert PlacedAt(place, inUse, s, i) && PlacedAt(place, inUse, s, j);
    }
  }

  /** A node of one list is not in the other. */
  lemma OtherList(l: GoodLists, inUse: bool, i: nat)
    requires i <= |ListOf(l, inUse)| + 1
    ensures var x := NodeAt(inUse, ListOf(l, inUse), i);
      x != Head(!inUse) && OutOf(x, ListOf(l, !inUse))
  {
    var s, r := ListOf(l, inUse), ListOf(l, !inUse);
    if 0 < i <= |s| { assert PlacedAt(l.place, inUse, s, i - 1); }
    forall j | 0 <= j < |r| ensures NodeAt(inUse, s, i) != Entry(r[j]) { assert PlacedAt(l.place, !inUse, r, j); }
  }

  function PlaceWithout(place: map<nat, Place>, e: nat): map<nat, Place>
    requires e in place
  {
    map x | x in place && x != e ::
      if place[x].inUse == place[e].inUse && place[x].i > place[e].i
      then Place(place[x].inUse, place[x].i - 1) else place[x]
  }

  function WithList(l: Lists, inUse: bool, s: seq<nat>, f: Fields, place: map<nat, Place>): Lists {
    if inUse then Lists(f, s, l.lru, place) else Lists(f, l.inUse, s, place)
  }

  function Removed(l: Lists, e: nat): Lists
    requires e in l.place && l.place[e].i < |ListOf(l, l.place[e].inUse)| && Entry(e) in l.f.next
    requires Entry(e) in l.f.prev
  {
    var p := l.place[e];
    WithList(l, p.inUse, Without(ListOf(l, p.inUse), p.i), Unlinked(l.f, Entry(e)), PlaceWithout(l.place, e))
  }

  lemma PlaceRemoved(l: GoodLists, e: nat, inUse: bool)
    requires e in l.place && Found(l, e)
    ensures var p := l.place[e];
      var s := if p.inUse == inUse then Without(ListOf(l, inUse), p.i) else ListOf(l, inUse);
      AllPlaced(PlaceWithout(l.place, e), inUse, s)
  {
    var p, place', r := l.place[e], PlaceWithout(l.place, e), ListOf(l, inUse);
    var s := if p.inUse == inUse then Without(r, p.i) else r;
    forall i | 0 <= i < |s| ensures PlacedAt(place', inUse, s, i) {
      var j := if p.inUse == inUse && i >= p.i then i + 1 else i;
      assert PlacedAt(l.place, inUse, r, j);
      assert s[i] == r[j];
    }
  }

  lemma FoundRemoved(l: GoodLists, e: nat, l': Lists)
    requires e in l.place && Found(l, e) && Entry(e) in l.f.next && Entry(e) in l.f.prev && l' == Removed(l, e)
    ensures forall x {:trigger Found(l', x)} :: x in l'.place ==> Found(l', x)
  {
    var p := l.place[e];
    var r := ListOf(l, p.inUse);
    assert forall i :: 0 <= i < |Without(r, p.i)| ==> Without(r, p.i)[i] == r[if i < p.i then i else i + 1];
    forall x | x in l'.place ensures Found(l', x) { assert Found(l, x); }
  }

  /** LRU_Remove takes an entry off the list it is on, and changes nothing else. */
  lemma Remove(l: GoodLists, e: nat) returns (l': GoodLists)
    requires e in l.place
    ensures Found(l, e) && Entry(e) in l.f.next && Entry(e) in l.f.prev && l' == Removed(l, e)
  {
    assert Found(l, e);
    var p := l.place[e];
    var s := ListOf(l, p.inUse);
    PlacedIsDistinct(l.place, p.inUse, s);
    UnlinkRing(l.f, p.inUse, s, p.i);
    assert JoinAt(l.f, p.inUse, s, p.i) && JoinAt(l.f, p.inUse, s, p.i + 1);
    OtherList(l, p.inUse, p.i);
    OtherList(l, p.inUse, p.i + 2);
    var x, y := l.f.prev[Entry(e)], l.f.next[Entry(e)];
    RingFrame(l.f, !p.inUse, ListOf(l, !p.inUse), x, y, y, x);
    PlaceRemoved(l, e, true);
    PlaceRemoved(l, e, false);
    FoundRemoved(l, e, Removed(l, e));
    l' := Assembled(Removed(l, e));
  }

  // ------------------------------------------------------------------- LRU_Append

  function Relinked(f: Fields, head: Node, e: Node): Fields
    requires head in f.prev
  {
    var last := f.prev[head];
    Fields(f.next[e := head][last := e], f.prev[e := last][head := e])
  }

  function Appended(l: Lists, inUse: bool, e: nat): Lists
    requires Head(inUse) in l.f.prev
  {
    var s := ListOf(l, inUse);
    WithList(l, inUse, s + [e], Relinked(l.f, Head(inUse), Entry(e)), l.place[e := Place(inUse, |s|)])
  }

  lemma LinkRing(f: Fields, inUse: bool, s: seq<nat>, e: nat)
    requires Ring(f, inUse, s) && Distinct(s) && e !in s
    ensures Head(inUse) in f.prev && Ring(Relinked(f, Head(inUse), Entry(e)), inUse, s + [e])
  {
    assert JoinAt(f, inUse, s, |s|);
    var f', s' := Relinked(f, Head(inUse), Entry(e)), s + [e];
    forall i | 0 <= i <= |s'| ensures JoinAt(f', inUse, s', i) {
      if i < |s| {
        assert JoinAt(f, inUse, s, i);
        NodesDiffer(inUse, s, i, |s|);
      }
    }
  }

  lemma PlaceAppended(l: GoodLists, e: nat, inUse: bool, r: bool)
    requires e !in l.place
    ensures var s := if r == inUse then ListOf(l, r) + [e] else ListOf(l, r);
      AllPlaced(l.place[e := Place(inUse, |ListOf(l, inUse)|)], r, s)
  {
    var place', t := l.place[e := Place(inUse, |ListOf(l, inUse)|)], ListOf(l, r);
    var s := if r == inUse then t + [e] else t;
    forall i | 0 <= i < |s| ensures PlacedAt(place', r, s, i) {
      if i < |t| { assert PlacedAt(l.place, r, t, i); }
    }
  }

  lemma NotListed(l: GoodLists, e: nat, inUse: bool)
    requires e !in l.place
    ensures e !in ListOf(l, inUse)
  {
    var s := ListOf(l, inUse);
    forall i | 0 <= i < |s| ensures s[i] != e { assert PlacedAt(l.place, inUse, s, i); }
  }

  lemma FoundAppended(l: GoodLists, inUse: bool, e: nat, l': Lists)
    requires e !in l.place && Head(inUse) in l.f.prev && l' == Appended(l, inUse, e)
    ensures forall x {:trigger Found(l', x)} :: x in l'.place ==> Found(l', x)
  {
    forall x | x in l'.place ensures Found(l', x) {
      if x != e { assert Found(l, x); }
    }
  }

  /** LRU_Append makes an entry the newest of a list. */
  lemma Append(l: GoodLists, inUse: bool, e: nat) returns (l': GoodLists)
    requires e !in l.place
    ensures Head(inUse) in l.f.prev && l' == Appended(l, inUse, e)
  {
    var s := ListOf(l, inUse);
    PlacedIsDistinct(l.place, inUse, s);
    NotListed(l, e, inUse);
    NotListed(l, e, !inUse);
    LinkRing(l.f, inUse, s, e);
    assert JoinAt(l.f, inUse, s, |s|);
    var head, last := Head(inUse), l.f.prev[Head(inUse)];
    OtherList(l, inUse, |s|);
    OtherList(l, inUse, |s| + 1);
    RingFrame(l.f, !inUse, ListOf(l, !inUse), Entry(e), head, Entry(e), last);
    RingFrame(Fields(l.f.next[Entry(e) := head], l.f.prev[Entry(e) := last]), !inUse, ListOf(l, !inUse), last, Entry(e),
      head, Entry(e));
    PlaceAppended(l, e, inUse, true);
    PlaceAppended(l, e, inUse, false);
    FoundAppended(l, inUse, e, Appended(l, inUse, e));
    l' := Assembled(Appended(l, inUse, e));
  }
}

/** Charges summed over the two lists. */
module LruCharges {
  import opened HashChains
  import opened LruLists

  /** The fields of an entry that are not links. */
  datatype Item = Item(tag: Tag, charge: nat, refs: nat, inCache: bool)

  /** What an entry adds to total_usage, or to usage. */
  function Weight(items: map<nat, Item>, cached: bool, e: nat): nat {
    if e in items && (cached ==> items[e].inCache) then items[e].charge else 0
  }

  function Sum(items: map<nat, Item>, cached: bool, s: seq<nat>, n: nat): nat
    requires n <= |s|
    decreases n
  {
    if n == 0 then 0 else Sum(items, cached, s, n - 1) + Weight(items, cached, s[n - 1])
  }

  lemma {:induction false} SumPrefix(items: map<nat, Item>, cached: bool, s: seq<nat>, t: seq<nat>, n: nat)
    requires n <= |s| && n <= |t| && forall i :: 0 <= i < n ==> s[i] == t[i]
    ensures Sum(items, cached, s, n) == Sum(items, cached, t, n)
    decreases n
  {
    if n > 0 { SumPrefix(items, cached, s, t, n - 1); }
  }

  lemma {:induction false} SumWithout(items: map<nat, Item>, cached: bool, s: seq<nat>, k: nat, n: nat)
    requires k < n <= |s|
    ensures Sum(items, cached, Without(s, k), n - 1) == Sum(items, cached, s, n) - Weight(items, cached, s[k])
    decreases n
  {
    if n == k + 1 {
      SumPrefix(items, cached, s, Without(s, k), k);
    } else {
      SumWithout(items, cached, s, k, n - 1);
    }
  }

  /** Only the weight of e may differ, and e is not among the first n, or it is once, at k. */
  lemma {:induction false} SumChange(items: map<nat, Item>, items': map<nat, Item>, cached: bool, s: seq<nat>, n: nat,
      e: nat, k: nat)
    requires n <= |s| && forall i :: 0 <= i < |s| ==> (s[i] == e <==> i == k)
    requires forall x {:trigger Weight(items', cached, x)} :: x != e ==>
      Weight(items', cached, x) == Weight(items, cached, x)
    ensures Sum(items', cached, s, n) + (if k < n then Weight(items, cached, e) else 0)
         == Sum(items, cached, s, n) + (if k < n then Weight(items', cached, e) else 0)
    decreases n
  {
    if n > 0 { SumChange(items, items', cached, s, n - 1, e, k); }
  }

  function Total(items: map<nat, Item>, cached: bool, l: Lists): nat {
    Sum(items, cached, l.inUse, |l.inUse|) + Sum(items, cached, l.lru, |l.lru|)
  }

  lemma TotalRemoved(items: map<nat, Item>, cached: bool, l: GoodLists, e: nat)
    requires e in l.place && Found(l, e) && Entry(e) in l.f.next && Entry(e) in l.f.prev
    ensures Total(items, cached, Removed(l, e)) == Total(items, cached, l) - Weight(items, cached, e)
  {
    var p := l.place[e];
    SumWithout(items, cached, ListOf(l, p.inUse), p.i, |ListOf(l, p.inUse)|);
  }

  lemma TotalAppended(items: map<nat, Item>, cached: bool, l: GoodLists, inUse: bool, e: nat)
    requires Head(inUse) in l.f.prev
    ensures Total(items, cached, Appended(l, inUse, e)) == Total(items, cached, l) + Weight(items, cached, e)
  {
    var s := ListOf(l, inUse);
    SumPrefix(items, cached, s, s + [e], |s|);
  }

  lemma OnceIn(l: GoodLists, e: nat, inUse: bool, k: nat)
    requires if e in l.place && l.place[e].inUse == inUse then k == l.place[e].i else k == |ListOf(l, inUse)|
    ensures forall i :: 0 <= i < |ListOf(l, inUse)| ==> (ListOf(l, inUse)[i] == e <==> i == k)
  {
    var s := ListOf(l, inUse);
    if e in l.place { assert Found(l, e); }
    forall i | 0 <= i < |s| ensures s[i] == e <==> i == k { assert PlacedAt(l.place, inUse, s, i); }
  }

  /** Changing one entry that is on a list changes the total by the difference of its weights. */
  lemma TotalChanged(items: map<nat, Item>, items': map<nat, Item>, cached: bool, l: GoodLists, e: nat)
    requires forall x {:trigger Weight(items', cached, x)} :: x != e ==>
      Weight(items', cached, x) == Weight(items, cached, x)
    ensures if e in l.place then Total(items', cached, l) + Weight(items, cached, e)
      == Total(items, cached, l) + Weight(items', cached, e)
            else Total(items', cached, l) == Total(items, cached, l)
  {
    var k := if e in l.place && l.place[e].inUse then l.place[e].i else |l.inUse|;
    var m := if e in l.place && !l.place[e].inUse then l.place[e].i else |l.lru|;
    if e in l.place { assert Found(l, e); }
    OnceIn(l, e, true, k);
    OnceIn(l, e, false, m);
    SumChange(items, items', cached, l.inUse, |l.inUse|, e, k);
    SumChange(items, items', cached, l.lru, |l.lru|, e, m);
  }
}

/** What every operation of the cache keeps. */
module LruInvariant {
  import opened HashChains
  import opened LruLists
  import opened LruCharges

  /**
    The cache: its entries and their lists, the table as a map, the two usage counters,
    how many handles clients hold, how often each entry has been passed to its deleter.
   */
  datatype Cache = Cache(items: map<nat, Item>, lists: Lists, index: map<Tag, nat>, usage: nat, total: nat,
                         handles: map<nat, nat>, deleted: multiset<nat>, nextId: nat)

  /**
    A live entry: on one list; referenced by its handles and, in the cache, by the cache; on
    the lru list exactly when only the cache refers to it; in the table exactly when cached.
   */
  ghost predicate LiveAt(c: Cache, e: nat)
    requires e in c.items
  {
    var x := c.items[e];
    && e in c.lists.place && e in c.handles && e < c.nextId
    && x.refs == c.handles[e] + (if x.inCache then 1 else 0) && x.refs >= 1
    && (!c.lists.place[e].inUse <==> x.inCache && x.refs == 1)
    && (x.inCache <==> x.tag in c.index && c.index[x.tag] == e)
  }

  ghost predicate IndexAt(c: Cache, tag: Tag)
    requires tag in c.index
  {
    var e := c.index[tag];
    e in c.items && c.items[e].tag == tag && c.items[e].inCache
  }

  /** Deleted once if it was ever made and is no longer live, else never. */
  ghost predicate CountAt(c: Cache, e: nat) {
    c.deleted[e] == if e < c.nextId && e !in c.items then 1 else 0
  }

  ghost predicate AllLive(c: Cache) {
    forall e {:trigger LiveAt(c, e)} :: e in c.items ==> LiveAt(c, e)
  }

  ghost predicate AllIndexed(c: Cache) {
    forall tag {:trigger IndexAt(c, tag)} :: tag in c.index ==> IndexAt(c, tag)
  }

  ghost predicate AllCounted(c: Cache) {
    forall e: nat {:trigger CountAt(c, e)} :: CountAt(c, e)
  }

  /** A counter is the sum of the charges: total_usage of all entries, usage of those in the cache. */
  ghost predicate CounterOk(c: Cache, cached: bool) {
    (if cached then c.usage else c.total) == Total(c.items, cached, c.lists)
  }

  ghost predicate Charged(c: Cache) {
    forall cached {:trigger CounterOk(c, cached)} :: CounterOk(c, cached)
  }

  ghost predicate ListedAt(c: Cache, e: nat) { e in c.lists.place ==> e in c.items }

  ghost predicate Listed(c: Cache) {
    forall e {:trigger ListedAt(c, e)} :: ListedAt(c, e)
  }

  ghost predicate CacheOk(c: Cache) {
    && LruLists.Ok(c.lists) && Listed(c) && AllLive(c) && AllIndexed(c) && AllCounted(c) && Charged(c)
  }

  type GoodCache = c: Cache | CacheOk(c) ghost witness EmptyCache()

  ghost function EmptyCache(): Cache { Cache(map[], LruLists.Empty(), map[], 0, 0, map[], multiset{}, 0) }

  lemma Built(s: Cache, l: GoodLists) returns (c: GoodCache)
    requires s.lists == l && Listed(s) && AllLive(s) && AllIndexed(s) && AllCounted(s) && Charged(s)
    ensures c == s
  {
    c := s;
  }

  lemma Counters(c: GoodCache)
    ensures c.total == Total(c.items, false, c.lists) && c.usage == Total(c.items, true, c.lists)
  {
    assert CounterOk(c, false) && CounterOk(c, true);
  }

  // ------------------------------------------------------------------- a new entry

  /** The first lines of Insert: an entry with one handle, not in the cache. */
  function Created(c: Cache, tag: Tag, charge: nat): Cache
    requires InUse in c.lists.f.prev
  {
    var e := c.nextId;
    Cache(c.items[e := Item(tag, charge, 1, false)], Appended(c.lists, true, e), c.index, c.usage, c.total + charge,
          c.handles[e := 1], c.deleted, e + 1)
  }

  lemma NotLive(c: GoodCache)
    ensures c.nextId !in c.items && c.nextId !in c.lists.place
  {
    assert ListedAt(c, c.nextId);
    if c.nextId in c.items { MadeBefore(c, c.nextId); }
  }

  lemma MadeBefore(c: GoodCache, e: nat)
    requires e in c.items
    ensures e < c.nextId
  {
    assert LiveAt(c, e);
  }

  lemma CreateOk(c: GoodCache, tag: Tag, charge: nat) returns (c': GoodCache)
    ensures InUse in c.lists.f.prev && c' == Created(c, tag, charge)
  {
    NotLive(c);
    var e := c.nextId;
    var l := Append(c.lists, true, e);
    var s := Created(c, tag, charge);
    if tag in c.index { assert IndexAt(c, tag); }
    forall x | x in s.items ensures LiveAt(s, x) {
      if x != e { assert LiveAt(c, x); }
    }
    forall y ensures ListedAt(s, y) { assert ListedAt(c, y); }
    forall t | t in s.index ensures IndexAt(s, t) { assert IndexAt(c, t); }
    forall x: nat ensures CountAt(s, x) { assert CountAt(c, x); }
    CreateCharged(c, tag, charge);
    c' := Built(s, l);
  }

  lemma CreateCharged(c: GoodCache, tag: Tag, charge: nat)
    requires InUse in c.lists.f.prev && c.nextId !in c.items && c.nextId !in c.lists.place
    ensures Charged(Created(c, tag, charge))
  {
    var e, s := c.nextId, Created(c, tag, charge);
    Counters(c);
    TotalChanged(c.items, s.items, false, c.lists, e);
    TotalChanged(c.items, s.items, true, c.lists, e);
    TotalAppended(s.items, false, c.lists, true, e);
    TotalAppended(s.items, true, c.lists, true, e);
  }

  // ------------------------------------------------- changing an entry where it is

  /** The fields of one entry change; its list stays. */
  function Changed(c: Cache, e: nat, x: Item, index: map<Tag, nat>, usage: nat, handles: nat): Cache {
    c.(items := c.items[e := x], index := index, usage := usage, handles := c.handles[e := handles])
  }

  lemma ChangeCharged(c: GoodCache, e: nat, x: Item, index: map<Tag, nat>, usage: nat, handles: nat)
    requires e in c.items && x.charge == c.items[e].charge
    requires usage + Weight(c.items, true, e) == c.usage + (if x.inCache then x.charge else 0)
    ensures Charged(Changed(c, e, x, index, usage, handles))
  {
    assert LiveAt(c, e);
    Counters(c);
    var items := c.items[e := x];
    TotalChanged(c.items, items, false, c.lists, e);
    TotalChanged(c.items, items, true, c.lists, e);
  }

  /** An entry in use enters the cache, under a tag that is free. */
  function CachedIn(c: Cache, e: nat): Cache
    requires e in c.items && e in c.handles
  {
    var x := c.items[e];
    Changed(c, e, Item(x.tag, x.charge, x.refs + 1, true), c.index[x.tag := e], c.usage + x.charge, c.handles[e])
  }

  lemma CacheInOk(c: GoodCache, e: nat) returns (c': GoodCache)
    requires e in c.items && !c.items[e].inCache && c.items[e].tag !in c.index
    ensures e in c.handles && c' == CachedIn(c, e)
  {
    assert LiveAt(c, e);
    var s, x := CachedIn(c, e), c.items[e];
    forall y | y in s.items ensures LiveAt(s, y) {
      assert LiveAt(c, y);
    }
    forall y ensures ListedAt(s, y) { assert ListedAt(c, y); }
    forall t | t in s.index ensures IndexAt(s, t) {
      if t != x.tag { assert IndexAt(c, t); }
    }
    forall y: nat ensures CountAt(s, y) { assert CountAt(c, y); }
    ChangeCharged(c, e, Item(x.tag, x.charge, x.refs + 1, true), c.index[x.tag := e], c.usage + x.charge, c.handles[e]);
    c' := Built(s, c.lists);
  }

  /** Remove of an entry that clients still use: only the cache lets go of it. */
  function Dropped(c: Cache, e: nat): Cache
    requires e in c.items && e in c.handles && c.items[e].refs >= 1 && c.usage >= c.items[e].charge
  {
    var x := c.items[e];
    Changed(c, e, Item(x.tag, x.charge, x.refs - 1, false), c.index - {x.tag}, c.usage - x.charge, c.handles[e])
  }

  lemma UsageCovers(c: GoodCache, e: nat)
    requires e in c.items
    ensures e in c.handles && c.total >= c.items[e].charge && (c.items[e].inCache ==> c.usage >= c.items[e].charge)
  {
    assert LiveAt(c, e);
    Counters(c);
    TotalChanged(c.items, c.items - {e}, false, c.lists, e);
    TotalChanged(c.items, c.items - {e}, true, c.lists, e);
  }

  lemma DropOk(c: GoodCache, e: nat) returns (c': GoodCache)
    requires e in c.items && c.items[e].inCache && c.items[e].refs > 1
    ensures e in c.handles && c.usage >= c.items[e].charge && c' == Dropped(c, e)
  {
    assert LiveAt(c, e);
    UsageCovers(c, e);
    var s, x := Dropped(c, e), c.items[e];
    forall y | y in s.items ensures LiveAt(s, y) { assert LiveAt(c, y); }
    forall y ensures ListedAt(s, y) { assert ListedAt(c, y); }
    forall t | t in s.index ensures IndexAt(s, t) { assert IndexAt(c, t); }
    forall y: nat ensures CountAt(s, y) { assert CountAt(c, y); }
    ChangeCharged(c, e, Item(x.tag, x.charge, x.refs - 1, false), c.index - {x.tag}, c.usage - x.charge, c.handles[e]);
    c' := Built(s, c.lists);
  }

  /** Unref and Ref where the entry stays on its list. */
  function Counted(c: Cache, e: nat, refs: nat, handles: nat): Cache
    requires e in c.items
  {
    var x := c.items[e];
    Changed(c, e, Item(x.tag, x.charge, refs, x.inCache), c.index, c.usage, handles)
  }

  lemma CountOk(c: GoodCache, e: nat, refs: nat, handles: nat) returns (c': GoodCache)
    requires e in c.items && refs >= 1 && refs == handles + (if c.items[e].inCache then 1 else 0)
    requires c.items[e].inCache ==> c.items[e].refs > 1 && refs > 1
    ensures c' == Counted(c, e, refs, handles)
  {
    assert LiveAt(c, e);
    var s, x := Counted(c, e, refs, handles), c.items[e];
    forall y | y in s.items ensures LiveAt(s, y) { assert LiveAt(c, y); }
    forall y ensures ListedAt(s, y) { assert ListedAt(c, y); }
    forall t | t in s.index ensures IndexAt(s, t) { assert IndexAt(c, t); }
    forall y: nat ensures CountAt(s, y) { assert CountAt(c, y); }
    ChangeCharged(c, e, Item(x.tag, x.charge, refs, x.inCache), c.index, c.usage, handles);
    c' := Built(s, c.lists);
  }

  // --------------------------------------------------------- changing lists, deleting

  /** The entry goes to the end of the other list, with a new count of references and handles. */
  function Moved(c: Cache, e: nat, inUse: bool, refs: nat, handles: nat): Cache
    requires e in c.items && e in c.lists.place && c.lists.place[e].i < |ListOf(c.lists, c.lists.place[e].inUse)|
    requires Entry(e) in c.lists.f.next && Entry(e) in c.lists.f.prev
    requires Head(inUse) in Removed(c.lists, e).f.prev
  {
    var x := c.items[e];
    c.(items := c.items[e := Item(x.tag, x.charge, refs, x.inCache)], lists := Appended(Removed(c.lists, e), inUse, e),
       handles := c.handles[e := handles])
  }

  /** The list operations of a move are possible. */
  ghost predicate Movable(c: Cache, e: nat, inUse: bool) {
    && e in c.items && e in c.lists.place && c.lists.place[e].i < |ListOf(c.lists, c.lists.place[e].inUse)|
    && Entry(e) in c.lists.f.next && Entry(e) in c.lists.f.prev
    && Head(inUse) in Removed(c.lists, e).f.prev
  }

  lemma MoveLists(c: GoodCache, e: nat, inUse: bool) returns (l: GoodLists)
    requires e in c.items
    ensures Movable(c, e, inUse) && l == Appended(Removed(c.lists, e), inUse, e)
    ensures forall x {:trigger x in l.place} :: x in l.place <==> x in c.lists.place
    ensures forall x {:trigger l.place[x]} :: x in l.place ==>
      l.place[x].inUse == if x == e then inUse else c.lists.place[x].inUse
  {
    assert LiveAt(c, e);
    var l1 := Remove(c.lists, e);
    l := Append(l1, inUse, e);
  }

  lemma MoveCharged(c: GoodCache, e: nat, inUse: bool, refs: nat, handles: nat)
    requires Movable(c, e, inUse)
    ensures Charged(Moved(c, e, inUse, refs, handles))
  {
    var s := Moved(c, e, inUse, refs, handles);
    var l1 := Remove(c.lists, e);
    Counters(c);
    TotalRemoved(c.items, false, c.lists, e);
    TotalRemoved(c.items, true, c.lists, e);
    TotalChanged(c.items, s.items, false, l1, e);
    TotalChanged(c.items, s.items, true, l1, e);
    TotalAppended(s.items, false, l1, inUse, e);
    TotalAppended(s.items, true, l1, inUse, e);
  }

  /** Unref of the last handle of a cached entry, and Ref of an idle one. */
  lemma ChangeListOk(c: GoodCache, e: nat, inUse: bool, refs: nat, handles: nat) returns (c': GoodCache)
    requires e in c.items && c.items[e].inCache && refs == handles + 1 && (inUse <==> refs > 1)
    ensures Movable(c, e, inUse) && c' == Moved(c, e, inUse, refs, handles)
  {
    var l := MoveLists(c, e, inUse);
    var s := Moved(c, e, inUse, refs, handles);
    forall x | x in s.items ensures LiveAt(s, x) { assert LiveAt(c, x); }
    forall y ensures ListedAt(s, y) { assert ListedAt(c, y); }
    forall t | t in s.index ensures IndexAt(s, t) { assert IndexAt(c, t); }
    forall x: nat ensures CountAt(s, x) { assert CountAt(c, x); }
    MoveCharged(c, e, inUse, refs, handles);
    c' := Built(s, l);
  }

  ghost predicate Deletable(c: Cache, e: nat) {
    && e in c.items && e in c.lists.place && c.lists.place[e].i < |ListOf(c.lists, c.lists.place[e].inUse)|
    && Entry(e) in c.lists.f.next && Entry(e) in c.lists.f.prev
    && c.total >= c.items[e].charge && c.usage >= Weight(c.items, true, e)
  }

  /** The last reference is gone: the entry leaves its list and goes to its deleter. */
  function Deleted(c: Cache, e: nat): Cache
    requires Deletable(c, e)
  {
    var x := c.items[e];
    Cache(c.items - {e}, Removed(c.lists, e), if x.inCache then c.index - {x.tag} else c.index,
          c.usage - Weight(c.items, true, e), c.total - x.charge, c.handles - {e}, c.deleted + multiset{e}, c.nextId)
  }

  lemma DeleteCharged(c: GoodCache, e: nat)
    requires Deletable(c, e)
    ensures Charged(Deleted(c, e))
  {
    var s := Deleted(c, e);
    var l := Remove(c.lists, e);
    Counters(c);
    TotalRemoved(c.items, false, c.lists, e);
    TotalRemoved(c.items, true, c.lists, e);
    TotalChanged(c.items, s.items, false, l, e);
    TotalChanged(c.items, s.items, true, l, e);
  }

  lemma DeleteOk(c: GoodCache, e: nat) returns (c': GoodCache)
    requires e in c.items && c.items[e].refs == 1
    ensures Deletable(c, e) && c' == Deleted(c, e)
  {
    assert LiveAt(c, e);
    UsageCovers(c, e);
    var l := Remove(c.lists, e);
    var s := Deleted(c, e);
    forall x | x in s.items ensures LiveAt(s, x) { assert LiveAt(c, x); }
    forall y ensures ListedAt(s, y) { assert ListedAt(c, y); }
    forall t | t in s.index ensures IndexAt(s, t) { assert IndexAt(c, t); }
    forall x: nat ensures CountAt(s, x) { assert CountAt(c, x); }
    DeleteCharged(c, e);
    c' := Built(s, l);
  }
}

/** The operations. */
module LruCaches {
  import opened HashChains
  import opened HashTables
  import opened LruLists
  import opened LruCharges
  import opened LruInvariant

  // ------------------------------------------------ what the operations do to a cache

  /** Unref of a handle. */
  ghost function Released(c: GoodCache, e: nat): (c': GoodCache)
    requires e in c.items && e in c.handles && c.handles[e] >= 1
  {
    var x := c.items[e];
    assert LiveAt(c, e);
    if x.refs == 1 then DeleteOf(c, e)
    else if x.inCache && x.refs == 2 then MoveOf(c, e, false, 1, 0)
    else CountOf(c, e, x.refs - 1, c.handles[e] - 1)
  }

  /** Ref. */
  ghost function Referenced(c: GoodCache, e: nat): (c': GoodCache)
    requires e in c.items
  {
    var x := c.items[e];
    assert LiveAt(c, e);
    if x.refs == 1 && x.inCache then MoveOf(c, e, true, 2, 1) else CountOf(c, e, x.refs + 1, c.handles[e] + 1)
  }

  /** Taking an entry out of the cache: Remove, after the table has let go of it. */
  ghost function Evicted(c: GoodCache, e: nat): (c': GoodCache)
    requires e in c.items && c.items[e].inCache
  {
    assert LiveAt(c, e);
    if c.items[e].refs == 1 then DeleteOf(c, e) else DropOf(c, e)
  }

  ghost function DeleteOf(c: GoodCache, e: nat): (c': GoodCache)
    requires e in c.items && c.items[e].refs == 1
    ensures Deletable(c, e) && c' == Deleted(c, e)
  {
    DeleteIsOk(c, e);
    Deleted(c, e)
  }

  lemma DeleteIsOk(c: GoodCache, e: nat)
    requires e in c.items && c.items[e].refs == 1
    ensures Deletable(c, e) && CacheOk(Deleted(c, e))
  {
    var _ := DeleteOk(c, e);
  }

  ghost function MoveOf(c: GoodCache, e: nat, inUse: bool, refs: nat, handles: nat): (c': GoodCache)
    requires e in c.items && c.items[e].inCache && refs == handles + 1 && (inUse <==> refs > 1)
    ensures Movable(c, e, inUse) && c' == Moved(c, e, inUse, refs, handles)
  {
    MoveIsOk(c, e, inUse, refs, handles);
    Moved(c, e, inUse, refs, handles)
  }

  lemma MoveIsOk(c: GoodCache, e: nat, inUse: bool, refs: nat, handles: nat)
    requires e in c.items && c.items[e].inCache && refs == handles + 1 && (inUse <==> refs > 1)
    ensures Movable(c, e, inUse) && CacheOk(Moved(c, e, inUse, refs, handles))
  {
    var _ := ChangeListOk(c, e, inUse, refs, handles);
  }

  ghost function CountOf(c: GoodCache, e: nat, refs: nat, handles: nat): (c': GoodCache)
    requires e in c.items && refs >= 1 && refs == handles + (if c.items[e].inCache then 1 else 0)
    requires c.items[e].inCache ==> c.items[e].refs > 1 && refs > 1
    ensures c' == Counted(c, e, refs, handles)
  {
    CountIsOk(c, e, refs, handles);
    Counted(c, e, refs, handles)
  }

  lemma CountIsOk(c: GoodCache, e: nat, refs: nat, handles: nat)
    requires e in c.items && refs >= 1 && refs == handles + (if c.items[e].inCache then 1 else 0)
    requires c.items[e].inCache ==> c.items[e].refs > 1 && refs > 1
    ensures CacheOk(Counted(c, e, refs, handles))
  {
    var _ := CountOk(c, e, refs, handles);
  }

  ghost function DropOf(c: GoodCache, e: nat): (c': GoodCache)
    requires e in c.items && c.items[e].inCache && c.items[e].refs > 1
    ensures e in c.handles && c.usage >= c.items[e].charge && c' == Dropped(c, e)
  {
    DropIsOk(c, e);
    Dropped(c, e)
  }

  lemma DropIsOk(c: GoodCache, e: nat)
    requires e in c.items && c.items[e].inCache && c.items[e].refs > 1
    ensures e in c.handles && c.usage >= c.items[e].charge && CacheOk(Dropped(c, e))
  {
    var _ := DropOk(c, e);
  }

  // ------------------------------------------------------------- the fields they touch

  /** What Unref reads and writes. */
  datatype Mem = Mem(items: map<nat, Item>, f: Fields, total: nat, deleted: multiset<nat>)

  ghost function MemOf(c: Cache): Mem { Mem(c.items, c.lists.f, c.total, c.deleted) }

  ghost predicate CanUnref(m: Mem, e: nat) {
    && e in m.items && m.items[e].refs >= 1 && m.total >= m.items[e].charge && Entry(e) in m.f.next
    && Entry(e) in m.f.prev
    && (m.items[e].inCache && m.items[e].refs == 2 ==> Lru in Unlinked(m.f, Entry(e)).prev)
  }

  ghost function Unreffed(m: Mem, e: nat): Mem
    requires CanUnref(m, e)
  {
    var x := m.items[e];
    if x.refs == 1 then Mem(m.items - {e}, Unlinked(m.f, Entry(e)), m.total - x.charge, m.deleted + multiset{e})
    else if x.inCache && x.refs == 2 then
      m.(items := m.items[e := Item(x.tag, x.charge, 1, true)], f := Relinked(Unlinked(m.f, Entry(e)), Lru, Entry(e)))
    else m.(items := m.items[e := Item(x.tag, x.charge, x.refs - 1, x.inCache)])
  }

  ghost function Uncached(m: Mem, e: nat): Mem
    requires e in m.items
  {
    var x := m.items[e];
    m.(items := m.items[e := Item(x.tag, x.charge, x.refs, false)])
  }

  /** Unref does what a release should do. */
  lemma UnrefReleases(c: GoodCache, e: nat)
    requires e in c.items && e in c.handles && c.handles[e] >= 1
    ensures CanUnref(MemOf(c), e) && MemOf(Released(c, e)) == Unreffed(MemOf(c), e)
    ensures Released(c, e).index == c.index && Released(c, e).usage == c.usage && Released(c, e).nextId == c.nextId
  {
    assert LiveAt(c, e);
    UsageCovers(c, e);
    var _ := Remove(c.lists, e);
    if c.items[e].inCache && c.items[e].refs == 2 { MoveIsOk(c, e, false, 1, 0); }
  }

  /** Unref after in_cache has been reset does what an eviction should do. */
  lemma UnrefEvicts(c: GoodCache, e: nat)
    requires e in c.items && c.items[e].inCache
    ensures CanUnref(Uncached(MemOf(c), e), e) && c.usage >= c.items[e].charge
    ensures MemOf(Evicted(c, e)) == Unreffed(Uncached(MemOf(c), e), e)
    ensures Evicted(c, e).usage == c.usage - c.items[e].charge
    ensures Evicted(c, e).index == c.index - {c.items[e].tag} && Evicted(c, e).nextId == c.nextId
  {
    assert LiveAt(c, e);
    UsageCovers(c, e);
    var _ := Remove(c.lists, e);
    if c.items[e].refs == 1 {
      assert Uncached(MemOf(c), e).items - {e} == c.items - {e};
    }
  }

  /** One more handle; an idle entry also goes from the lru list to the end of the in-use list. */
  ghost predicate RefsOnly(c: Cache, c': Cache, e: nat)
    requires e in c.items && e in c.handles
  {
    var x := c.items[e];
    && c'.items == c.items[e := Item(x.tag, x.charge, x.refs + 1, x.inCache)]
    && c'.handles == c.handles[e := c.handles[e] + 1]
    && c'.index == c.index && c'.usage == c.usage && c'.total == c.total && c'.deleted == c.deleted
    && c'.nextId == c.nextId
    && (if x.refs == 1 && x.inCache
        then
          && e in c.lists.place && c.lists.place[e].i < |c.lists.lru|
          && c'.lists.lru == Without(c.lists.lru, c.lists.place[e].i) && c'.lists.inUse == c.lists.inUse + [e]
        else c'.lists == c.lists)
  }

  /** Any other entry is as it was, in every respect but its place on a list. */
  ghost predicate SameBut(c: Cache, c': Cache, e: nat) {
    && c'.items - {e} == c.items - {e} && c'.handles - {e} == c.handles - {e}
    && c'.index == c.index && c'.usage == c.usage && c'.nextId == c.nextId
  }

  /**
    One handle less.  An entry that someone still refers to loses one reference and nothing
    else; if it was the last handle of a cached entry, that one becomes the newest idle entry.
    Otherwise the entry goes: it is deleted, once, and its charge no longer counts.
   */
  ghost predicate ReleasesOnly(c: Cache, c': Cache, e: nat)
    requires e in c.items && e in c.handles && c.handles[e] >= 1
  {
    var x := c.items[e];
    && SameBut(c, c', e)
    && (x.refs > 1 ==>
          && c'.items == c.items[e := Item(x.tag, x.charge, x.refs - 1, x.inCache)]
          && c'.handles == c.handles[e := c.handles[e] - 1] && c'.total == c.total && c'.deleted == c.deleted)
    && (x.refs > 1 && c.handles[e] > 1 ==> c'.lists == c.lists)
    && (x.refs > 1 && c.handles[e] == 1 ==> x.inCache && LeavesUse(c, c', e) && c'.lists.lru == c.lists.lru + [e])
    && (x.refs == 1 ==>
          && !x.inCache && c.handles[e] == 1 && e !in c'.items && e !in c'.handles
          && c'.total == c.total - x.charge && c'.deleted == c.deleted + multiset{e}
          && LeavesUse(c, c', e) && c'.lists.lru == c.lists.lru)
  }

  /** The entry is taken off the in-use list, whose order stays. */
  ghost predicate LeavesUse(c: Cache, c': Cache, e: nat) {
    && e in c.lists.place && c.lists.place[e].inUse && c.lists.place[e].i < |c.lists.inUse|
    && c.lists.inUse[c.lists.place[e].i] == e && c'.lists.inUse == Without(c.lists.inUse, c.lists.place[e].i)
  }

  /** What the release of a handle leaves. */
  lemma ReleaseStep(c: GoodCache, e: nat)
    requires e in c.items && e in c.handles && c.handles[e] >= 1
    ensures ReleasesOnly(c, Released(c, e), e)
  {
    var x, c' := c.items[e], Released(c, e);
    assert LiveAt(c, e);
    assert Found(c.lists, e);
    assert c'.items - {e} == c.items - {e} && c'.handles - {e} == c.handles - {e};
  }

  /** What Ref leaves, and how its links get there. */
  lemma RefStep(c: GoodCache, e: nat) returns (c': GoodCache)
    requires e in c.items
    ensures e in c.handles && RefsOnly(c, c', e)
    ensures c.items[e].refs == 1 && c.items[e].inCache ==>
      && Entry(e) in c.lists.f.next && Entry(e) in c.lists.f.prev && InUse in Unlinked(c.lists.f, Entry(e)).prev
      && c'.lists.f == Relinked(Unlinked(c.lists.f, Entry(e)), InUse, Entry(e))
  {
    assert LiveAt(c, e);
    var _ := Remove(c.lists, e);
    c' := Referenced(c, e);
  }

  /** Entries that clients hold stay alive, and so do their handles. */
  ghost predicate KeptAt(c: Cache, c': Cache, e: nat) {
    e in c.items && e in c.handles && c.handles[e] >= 1 ==>
      e in c'.items && e in c'.handles && c'.handles[e] == c.handles[e]
  }

  ghost predicate Keeps(c: Cache, c': Cache) {
    forall e {:trigger KeptAt(c, c', e)} :: KeptAt(c, c', e)
  }

  /**
    Evicting an entry takes it out of the table and touches no other entry.  It dies if no
    client holds it; otherwise it stays on its list, and with it its handles.
   */
  ghost predicate EvictsOnly(c: Cache, c': Cache, e: nat)
    requires e in c.items
  {
    && c'.index == c.index - {c.items[e].tag} && c'.nextId == c.nextId
    && c'.items - {e} == c.items - {e} && c'.handles - {e} == c.handles - {e}
    && (if c.items[e].refs == 1
        then e !in c'.items && c'.deleted == c.deleted + multiset{e}
        else
          && e in c'.items && !c'.items[e].inCache && c'.items[e].refs == c.items[e].refs - 1
          && c'.items[e].tag == c.items[e].tag && c'.items[e].charge == c.items[e].charge
          && c'.deleted == c.deleted && c'.lists == c.lists)
  }

  /** An idle entry leaves the lru list. */
  ghost predicate ListsAfter(c: Cache, c': Cache, e: nat) {
    e in c.items && c.items[e].refs == 1 ==>
      && e in c.lists.place && !c.lists.place[e].inUse && c.lists.place[e].i < |c.lists.lru|
      && c'.lists.inUse == c.lists.inUse && c'.lists.lru == Without(c.lists.lru, c.lists.place[e].i)
  }

  /** What an eviction leaves, and that Unref gets there once in_cache has been reset. */
  lemma EvictStep(c: GoodCache, e: nat) returns (c': GoodCache)
    requires e in c.items && c.items[e].inCache
    ensures CanUnref(Uncached(MemOf(c), e), e) && c.usage >= c.items[e].charge
    ensures MemOf(c') == Unreffed(Uncached(MemOf(c), e), e) && c'.usage == c.usage - c.items[e].charge
    ensures EvictsOnly(c, c', e) && Keeps(c, c') && ListsAfter(c, c', e)
  {
    UnrefEvicts(c, e);
    assert LiveAt(c, e);
    c' := Evicted(c, e);
    assert c'.items - {e} == c.items - {e} && c'.handles - {e} == c.handles - {e};
    forall x ensures KeptAt(c, c', x) {
      if x in c.items { assert LiveAt(c, x); }
    }
  }

  lemma KeepsTransitive(a: Cache, b: Cache, c: Cache)
    requires Keeps(a, b) && Keeps(b, c)
    ensures Keeps(a, c)
  {
    forall x ensures KeptAt(a, c, x) { assert KeptAt(a, b, x) && KeptAt(b, c, x); }
  }

  // ------------------------------------------------------------------- making room

  /** Every key but those of the entries gone maps to what it mapped to. */
  ghost predicate SameTag(c: Cache, c': Cache, gone: seq<nat>, tag: Tag) {
    && (tag in c'.index <==> tag in c.index && c.index[tag] !in gone)
    && (tag in c'.index ==> c'.index[tag] == c.index[tag])
  }

  ghost predicate SameItem(c: Cache, c': Cache, gone: seq<nat>, e: nat) {
    e in c.items && e !in gone ==> e in c'.items && c'.items[e] == c.items[e]
  }

  /** The n oldest idle entries are gone, and nothing else has changed. */
  ghost predicate Trimmed(c: Cache, c': Cache, n: nat) {
    && n <= |c.lists.lru| && c'.lists.lru == c.lists.lru[n..] && c'.lists.inUse == c.lists.inUse
    && c'.usage == c.usage - Sum(c.items, true, c.lists.lru, n) && c'.nextId == c.nextId
    && (forall tag {:trigger SameTag(c, c', c.lists.lru[..n], tag)} :: SameTag(c, c', c.lists.lru[..n], tag))
    && (forall e {:trigger SameItem(c, c', c.lists.lru[..n], e)} :: SameItem(c, c', c.lists.lru[..n], e))
  }

  lemma TrimNone(c: Cache)
    ensures Trimmed(c, c, 0)
  {
  }

  /** The tags that go with an entry: its own. */
  lemma TagGone(c: GoodCache, c': Cache, a: nat, tag: Tag)
    requires a in c.items && c.items[a].inCache && EvictsOnly(c, c', a)
    ensures SameTag(c, c', [a], tag)
  {
    assert LiveAt(c, a);
    if tag in c.index { assert IndexAt(c, tag); }
  }

  lemma ItemGone(c: Cache, c': Cache, a: nat, e: nat)
    requires a in c.items && EvictsOnly(c, c', a)
    ensures SameItem(c, c', [a], e)
  {
    if e in c.items && e != a { OthersSame(c, c', a, e); }
  }

  /** One more. */
  lemma TrimOne(c0: Cache, c: GoodCache, c': Cache, n: nat)
    requires Trimmed(c0, c, n) && n < |c0.lists.lru| && c0.lists.lru[n] == c.lists.lru[0]
    requires var a := c.lists.lru[0];
      && a in c.items && c.items[a].inCache && EvictsOnly(c, c', a) && c'.usage == c.usage - c.items[a].charge
      && c'.lists.lru == c.lists.lru[1..] && c'.lists.inUse == c.lists.inUse
      && a in c0.items && c0.items[a] == c.items[a]
    ensures Trimmed(c0, c', n + 1)
  {
    var s, a := c0.lists.lru, c.lists.lru[0];
    var gone := s[..n + 1];
    assert gone == s[..n] + [a];
    forall tag ensures SameTag(c0, c', gone, tag) {
      assert SameTag(c0, c, s[..n], tag);
      TagGone(c, c', a, tag);
    }
    forall e ensures SameItem(c0, c', gone, e) {
      assert SameItem(c0, c, s[..n], e);
      ItemGone(c, c', a, e);
    }
  }

  /** Evicting n of them is what it takes: with one less the cache is still too full. */
  ghost predicate FirstFit(usage: int, capacity: nat, items: map<nat, Item>, idle: seq<nat>, n: nat) {
    && n <= |idle|
    && (n > 0 ==> usage - Sum(items, true, idle, n - 1) > capacity)
    && (n < |idle| ==> usage - Sum(items, true, idle, n) <= capacity)
  }

  // ---------------------------------------------------------------------- inserting

  /** The idle entries, the oldest first, once the entry of this key is gone. */
  ghost function IdleOthers(c: Cache, tag: Tag): seq<nat> {
    if tag in c.index && IsIdle(c, c.index[tag])
    then Without(c.lists.lru, c.lists.place[c.index[tag]].i) else c.lists.lru
  }

  ghost predicate IsIdle(c: Cache, e: nat) {
    e in c.items && c.items[e].refs == 1 && e in c.lists.place && c.lists.place[e].i < |c.lists.lru|
  }

  /** The charge of the entry of this key. */
  ghost function OldCharge(c: Cache, tag: Tag): nat {
    if tag in c.index && c.index[tag] in c.items then c.items[c.index[tag]].charge else 0
  }

  ghost predicate SameWeights(items: map<nat, Item>, items': map<nat, Item>, s: seq<nat>) {
    forall i :: 0 <= i < |s| ==> Weight(items, true, s[i]) == Weight(items', true, s[i])
  }

  lemma {:induction false} SumSame(items: map<nat, Item>, items': map<nat, Item>, s: seq<nat>, n: nat)
    requires n <= |s| && SameWeights(items, items', s)
    ensures Sum(items, true, s, n) == Sum(items', true, s, n)
  {
    if n > 0 { SumSame(items, items', s, n - 1); }
  }

  lemma IdleEntry(c: GoodCache, i: nat)
    requires i < |c.lists.lru|
    ensures var x := c.lists.lru[i];
      x in c.items && c.items[x].inCache && c.items[x].refs == 1 && x < c.nextId
  {
    var x := c.lists.lru[i];
    assert PlacedAt(c.lists.place, false, c.lists.lru, i);
    assert ListedAt(c, x);
    assert LiveAt(c, x);
  }

  /** Entries other than e and one that has left the cache are as they were, so the idle ones are. */
  lemma IdleWeights(c: Cache, c': GoodCache, e: nat, gone: nat)
    requires e in c'.items && c'.items[e].refs == 2 && (gone != e && gone in c'.items ==> !c'.items[gone].inCache)
    requires forall x :: x in c'.items && x != e && x != gone ==> x in c.items && c.items[x] == c'.items[x]
    ensures SameWeights(c.items, c'.items, c'.lists.lru)
  {
    forall i | 0 <= i < |c'.lists.lru|
      ensures Weight(c.items, true, c'.lists.lru[i]) == Weight(c'.items, true, c'.lists.lru[i])
    {
      IdleEntry(c', i);
    }
  }

  /** A new entry changes neither the idle ones nor their weights. */
  lemma CreatedIdle(c: GoodCache, c': Cache, tag: Tag, x: Item, p: Place)
    requires c'.items == c.items[c.nextId := x] && c'.index == c.index && c'.lists.lru == c.lists.lru
    requires c'.lists.place == c.lists.place[c.nextId := p]
    ensures IdleOthers(c', tag) == IdleOthers(c, tag) && OldCharge(c', tag) == OldCharge(c, tag)
    ensures SameWeights(c.items, c'.items, IdleOthers(c, tag))
  {
    if tag in c.index {
      Indexed(c, tag);
      assert LiveAt(c, c.index[tag]);
    }
    var s := IdleOthers(c, tag);
    forall i | 0 <= i < |s| ensures Weight(c.items, true, s[i]) == Weight(c'.items, true, s[i]) {
      var j := if s == c.lists.lru || i < c.lists.place[c.index[tag]].i then i else i + 1;
      IdleEntry(c, j);
    }
  }

  /** How Insert ends: what making room left, and the new entry only if it then fits. */
  ghost predicate Settled(c: Cache, c': Cache, capacity: nat, e: nat, tag: Tag, charge: nat, n: nat) {
    && FirstFit(c.usage, capacity, c.items, c.lists.lru, n) && c'.lists.lru == c.lists.lru[n..]
    && var left := c.usage - Sum(c.items, true, c.lists.lru, n);
    && (tag in c'.index <==> left <= capacity) && (tag in c'.index ==> c'.index[tag] == e)
    && c'.usage == (if tag in c'.index then left else left - charge)
    && forall other {:trigger SameTag(c, c', c.lists.lru[..n], other)} ::
         other != tag ==> SameTag(c, c', c.lists.lru[..n], other)
  }

  /**
    The whole of Insert.  The old entry of the key leaves the cache.  Then the oldest idle
    entries go, as few as it takes to fit the new one, or all.  Every other key maps to what
    it mapped to, and the key itself to the new entry, exactly if that now fits.
   */
  ghost predicate Inserted(c: Cache, c': Cache, capacity: nat, tag: Tag, charge: nat, n: nat) {
    var idle, need := IdleOthers(c, tag), c.usage + charge - OldCharge(c, tag);
    && FirstFit(need, capacity, c.items, idle, n) && c'.lists.lru == idle[n..]
    && var left := need - Sum(c.items, true, idle, n);
    && (tag in c'.index <==> left <= capacity) && (tag in c'.index ==> c'.index[tag] == c.nextId)
    && c'.usage == (if tag in c'.index then left else left - charge)
    && forall other {:trigger SameTag(c, c', idle[..n], other)} :: other != tag ==> SameTag(c, c', idle[..n], other)
  }

  /** The parts of Insert, put together. */
  lemma InsertParts(c: Cache, c2: Cache, c': Cache, capacity: nat, tag: Tag, charge: nat, n: nat)
    requires c2.lists.lru == IdleOthers(c, tag) && c2.usage == c.usage + charge - OldCharge(c, tag)
    requires c2.index == c.index[tag := c.nextId] && SameWeights(c.items, c2.items, c2.lists.lru)
    requires Settled(c2, c', capacity, c.nextId, tag, charge, n)
    ensures Inserted(c, c', capacity, tag, charge, n)
  {
    var idle := IdleOthers(c, tag);
    SumSame(c.items, c2.items, idle, n);
    if n > 0 { SumSame(c.items, c2.items, idle, n - 1); }
    forall other | other != tag ensures SameTag(c, c', idle[..n], other) {
      assert SameTag(c2, c', idle[..n], other);
    }
  }

  lemma WeightsTransitive(a: map<nat, Item>, b: map<nat, Item>, c: map<nat, Item>, s: seq<nat>)
    requires SameWeights(a, b, s) && SameWeights(b, c, s)
    ensures SameWeights(a, c, s)
  {
  }

  ghost predicate Below(tags: map<nat, Tag>, n: nat) {
    forall x {:trigger x in tags} :: x in tags ==> x < n
  }

  class LRUCache {
    const capacity: nat
    const table: HashTable
    var totalUsage: nat
    var usage: nat
    var items: map<nat, Item>
    var f: Fields
    var deleted: multiset<nat>
    var nextId: nat
    ghost var c: GoodCache

    /** The fields are those of c, and the table is its index. */
    ghost predicate Core()
      reads this, table
    {
      && items == c.items && f == c.lists.f && usage == c.usage && totalUsage == c.total
      && deleted == c.deleted && nextId == c.nextId
      && table.Valid() && table.t.index == c.index && Below(table.tags, nextId)
    }

    ghost predicate Valid()
      reads this, table
    {
      Core() && usage <= capacity
    }

    constructor (capacity: nat)
      ensures Valid() && fresh(table) && this.capacity == capacity && c == EmptyCache()
    {
      this.capacity, totalUsage, usage, items, deleted, nextId := capacity, 0, 0, map[], multiset{}, 0;
      f := LruLists.Empty().f;
      table := new HashTable();
      c := EmptyCache();
    }

    method Unref(e: nat)
      requires CanUnref(Mem(items, f, totalUsage, deleted), e)
      modifies this`items, this`f, this`totalUsage, this`deleted
      ensures Mem(items, f, totalUsage, deleted) == old(Unreffed(Mem(items, f, totalUsage, deleted), e))
    {
      var x := items[e];
      items := items[e := Item(x.tag, x.charge, x.refs - 1, x.inCache)];
      if x.refs == 1 {
        f := Unlinked(f, Entry(e));
        totalUsage := totalUsage - x.charge;
        deleted := deleted + multiset{e};
        items := items - {e};
        assert items == old(items) - {e};
      } else if x.inCache && x.refs == 2 {
        f := Unlinked(f, Entry(e));
        f := Relinked(f, Lru, Entry(e));
      }
    }

    /** Remove, on the fields alone: the table has let go of the entry already. */
    method RemoveFields(e: nat, ghost m: Mem)
      requires e in items && usage >= items[e].charge && CanUnref(Uncached(Mem(items, f, totalUsage, deleted), e), e)
      requires m == Unreffed(Uncached(Mem(items, f, totalUsage, deleted), e), e)
      modifies this`items, this`f, this`totalUsage, this`deleted, this`usage
      ensures items == m.items && f == m.f && totalUsage == m.total && deleted == m.deleted
      ensures usage == old(usage) - old(items[e].charge)
    {
      var x := items[e];
      items := items[e := Item(x.tag, x.charge, x.refs, false)];
      usage := usage - x.charge;
      Unref(e);
    }

    method Remove(e: nat, ghost c': GoodCache)
      requires items == c.items && f == c.lists.f && usage == c.usage && totalUsage == c.total && deleted == c.deleted
      requires e in c.items && usage >= c.items[e].charge && CanUnref(Uncached(MemOf(c), e), e)
      requires MemOf(c') == Unreffed(Uncached(MemOf(c), e), e) && c'.usage == c.usage - c.items[e].charge
      modifies this`items, this`f, this`totalUsage, this`deleted, this`usage, this`c
      ensures c == c' && items == c.items && f == c.lists.f && usage == c.usage && totalUsage == c.total
      ensures deleted == c.deleted
    {
      RemoveFields(e, MemOf(c'));
      c := c';
    }

    /** Release a handle. */
    method Release(e: nat)
      requires Valid() && e in c.items && e in c.handles && c.handles[e] >= 1
      modifies this
      ensures Valid() && c == old(Released(c, e)) && ReleasesOnly(old(c), c, e)
    {
      UnrefReleases(c, e);
      ReleaseStep(c, e);
      Unref(e);
      c := Released(c, e);
    }

    /** One more handle on an entry. */
    method Ref(e: nat)
      requires Valid() && e in c.items
      modifies this
      ensures Valid() && e in old(c.handles) && RefsOnly(old(c), c, e)
    {
      ghost var c' := RefStep(c, e);
      var x := items[e];
      if x.refs == 1 && x.inCache {
        f := Unlinked(f, Entry(e));
        f := Relinked(f, InUse, Entry(e));
      }
      items := items[e := Item(x.tag, x.charge, x.refs + 1, x.inCache)];
      c := c';
    }

    /** Lookup: the entry of the key, with one more handle. */
    method Lookup(tag: Tag) returns (e: Ptr)
      requires Valid()
      modifies this
      ensures Valid() && e == Find(old(c.index), tag)
      ensures e.At? ==> e.id in old(c.items) && e.id in old(c.handles) && RefsOnly(old(c), c, e.id)
      ensures e.Null? ==> c == old(c)
    {
      e := table.Lookup(tag);
      if e.At? {
        assert IndexAt(c, tag);
        Ref(e.id);
      }
    }

    /** Erase by key. */
    method Erase(tag: Tag)
      requires Valid()
      modifies this, table
      ensures Valid() && Keeps(old(c), c)
      ensures tag in old(c.index) ==>
        var e := old(c.index)[tag];
        e in old(c.items) && EvictsOnly(old(c), c, e) && ListsAfter(old(c), c, e)
      ensures tag !in old(c.index) ==> c == old(c)
    {
      var e := table.Remove(tag);
      if e.At? {
        Indexed(c, tag);
        ghost var c' := EvictStep(c, e.id);
        Remove(e.id, c');
      } else {
        KeepsSelf(c);
        assert c.index - {tag} == c.index;
      }
    }

    /** Erase a given entry; no effect if it is not in the cache. */
    method EraseEntry(e: nat)
      requires Valid() && e in c.items
      modifies this, table
      ensures Valid() && Keeps(old(c), c)
      ensures if old(c.items[e].inCache) then EvictsOnly(old(c), c, e) && ListsAfter(old(c), c, e) else c == old(c)
    {
      InTable(c, e);
      KeepsSelf(c);
      var removed := table.RemoveEntry(e, items[e].tag);
      if removed {
        ghost var c' := EvictStep(c, e);
        Remove(e, c');
      }
    }

    /** Take the entry of a key out of the table and the cache. */
    method Evict(tag: Tag)
      requires Core() && tag in c.index
      modifies this, table
      ensures Core() && Keeps(old(c), c)
      ensures var e := old(c.index)[tag];
        && e in old(c.items) && EvictsOnly(old(c), c, e) && usage == old(usage) - old(c.items)[e].charge
        && ListsAfter(old(c), c, e)
    {
      Indexed(c, tag);
      var victim := table.Remove(tag);
      ghost var c' := EvictStep(c, victim.id);
      Remove(victim.id, c');
    }

    /** One round of the eviction loops: the least recently used entry goes. */
    method EvictOldest()
      requires Core() && c.lists.lru != []
      modifies this, table
      ensures Core() && Keeps(old(c), c)
      ensures var a := old(c.lists.lru[0]);
        a in old(c.items) && EvictsOnly(old(c), c, a) && usage == old(usage) - old(c.items)[a].charge
      ensures c.lists.lru == old(c.lists.lru)[1..] && c.lists.inUse == old(c.lists.inUse)
    {
      Oldest(c);
      var a := f.next[Lru].id;
      Evict(items[a].tag);
    }

    /** The same, after n others. */
    method EvictFurther(ghost c0: GoodCache, ghost n: nat)
      requires Core() && c.lists.lru != [] && Trimmed(c0, c, n) && Keeps(c0, c)
      modifies this, table
      ensures Core() && Trimmed(c0, c, n + 1) && Keeps(c0, c)
      ensures |c.lists.lru| < old(|c.lists.lru|) && usage <= old(usage)
      ensures forall e :: e in old(c.items) && old(c.items)[e].refs > 1 ==>
        e in c.items && c.items[e] == old(c.items)[e]
    {
      ghost var before := c;
      Oldest(c);
      EvictOldest();
      forall e | e in before.items && before.items[e].refs > 1 ensures e in c.items && c.items[e] == before.items[e] {
        OthersSame(before, c, before.lists.lru[0], e);
      }
      KeepsTransitive(c0, before, c);
      StillThere(c0, before, n);
      TrimOne(c0, before, c, n);
    }

    /** Prune: empty the lru list. */
    method Prune()
      requires Valid()
      modifies this, table
      ensures Valid() && Keeps(old(c), c) && Trimmed(old(c), c, |old(c.lists.lru)|)
    {
      KeepsSelf(c);
      NoOldest(c);
      TrimNone(c);
      ghost var n := 0;
      while f.next[Lru] != Lru
        invariant Valid() && Keeps(old(c), c) && Trimmed(old(c), c, n)
        invariant Lru in f.next && (f.next[Lru] == Lru <==> c.lists.lru == [])
        decreases |c.lists.lru|
      {
        EvictFurther(old(c), n);
        NoOldest(c);
        n := n + 1;
      }
    }

    /** Make room: evict idle entries, the oldest first, while the cache is over its capacity. */
    method MakeRoom(ghost e: nat) returns (ghost n: nat)
      requires Core() && e in c.items && c.items[e].refs > 1
      modifies this, table
      ensures Core() && Keeps(old(c), c) && e in c.items && c.items[e] == old(c.items)[e]
      ensures Trimmed(old(c), c, n) && FirstFit(old(usage), capacity, old(c.items), old(c.lists.lru), n)
    {
      KeepsSelf(c);
      NoOldest(c);
      TrimNone(c);
      n := 0;
      while usage > capacity && f.next[Lru] != Lru
        invariant Core() && Keeps(old(c), c) && e in c.items && c.items[e] == old(c.items)[e]
        invariant Lru in f.next && (f.next[Lru] == Lru <==> c.lists.lru == [])
        invariant Trimmed(old(c), c, n)
        invariant n > 0 ==> old(usage) - Sum(old(c.items), true, old(c.lists.lru), n - 1) > capacity
        decreases |c.lists.lru|
      {
        EvictFurther(old(c), n);
        NoOldest(c);
        n := n + 1;
      }
    }

    /** The first lines of Insert: a new entry with a handle for the client. */
    method Create(tag: Tag, charge: nat) returns (e: nat)
      requires Valid()
      modifies this
      ensures Valid() && e == old(nextId) && nextId == e + 1 && usage == old(usage) && table.tags == old(table.tags)
      ensures e !in table.tags
      ensures e in c.items && c.items[e] == Item(tag, charge, 1, false) && c.index == old(c.index)
      ensures e in c.handles && c.handles[e] == 1 && Keeps(old(c), c)
      ensures c.lists.lru == old(c.lists.lru)
      ensures IdleOthers(c, tag) == old(IdleOthers(c, tag)) && OldCharge(c, tag) == old(OldCharge(c, tag))
      ensures SameWeights(old(c.items), c.items, IdleOthers(c, tag))
    {
      ghost var c' := CreateStep(c, tag, charge);
      e := nextId;
      items := items[e := Item(tag, charge, 1, false)];
      f := Relinked(f, InUse, Entry(e));
      totalUsage := totalUsage + charge;
      nextId := nextId + 1;
      c := c';
    }

    /** The middle of Insert: the new entry enters the cache, an old one of its key leaves it. */
    method EnterCache(e: nat, tag: Tag)
      requires Core() && e in c.items && c.items[e].tag == tag && !c.items[e].inCache && c.items[e].refs == 1
      requires e !in table.tags
      requires e < nextId && e in c.handles && c.handles[e] == 1
      modifies this, table
      ensures Core() && nextId == old(nextId) && Keeps(old(c), c)
      ensures e in c.items && c.items[e] == Item(tag, old(c.items)[e].charge, 2, true)
      ensures c.index == old(c.index)[tag := e] && c.lists.lru == old(IdleOthers(c, tag))
      ensures usage == old(usage) + old(c.items)[e].charge - old(OldCharge(c, tag))
      ensures SameWeights(old(c.items), c.items, c.lists.lru)
    {
      ghost var c' := Replaced(c, e);
      var x := items[e];
      items := items[e := Item(x.tag, x.charge, x.refs + 1, true)];
      usage := usage + x.charge;
      var old_ := table.Insert(e, tag);
      if old_.At? {
        RemoveFields(old_.id, MemOf(c'));
      }
      c := c';
    }

    /** The end of Insert: make room, or else let go of the new entry again. */
    method Settle(e: nat, tag: Tag) returns (ghost n: nat)
      requires Core() && e in c.items && c.items[e].tag == tag && c.items[e].inCache && c.items[e].refs == 2
      requires usage <= capacity + c.items[e].charge
      modifies this, table
      ensures Valid() && Keeps(old(c), c) && nextId == old(nextId)
      ensures e in c.items && c.items[e].tag == tag && c.items[e].charge == old(c.items)[e].charge
      ensures Settled(old(c), c, capacity, e, tag, old(c.items)[e].charge, n)
    {
      n := MakeRoom(e);
      InTable(c, e);
      ghost var c0, c1 := old(c), c;
      if usage > capacity {
        Evict(tag);
        KeepsTransitive(c0, c1, c);
        EvictedItem(c1, c, e);
        SettledWithout(c0, c1, c, capacity, e, n);
      } else {
        SettledWith(c0, c1, capacity, e, n);
      }
    }

    /** Insert: the new entry, with a handle; it is cached if there is room for it. */
    method Insert(tag: Tag, charge: nat) returns (e: nat, ghost n: nat)
      requires Valid()
      modifies this, table
      ensures Valid() && e == old(nextId) && Keeps(old(c), c)
      ensures e in c.items && c.items[e].tag == tag && c.items[e].charge == charge && e in c.handles
      ensures c.handles[e] == 1
      ensures if capacity > 0 then Inserted(old(c), c, capacity, tag, charge, n)
              else c.index == old(c.index) && usage == old(usage) && c.lists.lru == old(c.lists.lru)
    {
      ghost var c0 := c;
      n := 0;
      e := Create(tag, charge);
      if capacity == 0 {
        return;
      }
      ghost var c1 := c;
      EnterCache(e, tag);
      ghost var c2 := c;
      n := Settle(e, tag);
      KeepsTransitive(c0, c1, c2);
      KeepsTransitive(c0, c2, c);
      HandleOf(c1, c2, c, e);
      WeightsTransitive(c0.items, c1.items, c2.items, c2.lists.lru);
      InsertParts(c0, c2, c, capacity, tag, charge, n);
    }
  }

  lemma SettledWith(c: Cache, c': GoodCache, capacity: nat, e: nat, n: nat)
    requires Trimmed(c, c', n) && FirstFit(c.usage, capacity, c.items, c.lists.lru, n) && c'.usage <= capacity
    requires e in c'.items && c'.items[e].inCache
    ensures Settled(c, c', capacity, e, c'.items[e].tag, c'.items[e].charge, n)
  {
    InTable(c', e);
  }

  lemma SettledWithout(c: Cache, c1: GoodCache, c': Cache, capacity: nat, e: nat, n: nat)
    requires Trimmed(c, c1, n) && FirstFit(c.usage, capacity, c.items, c.lists.lru, n) && c1.usage > capacity
    requires e in c1.items && c1.items[e].inCache && EvictsOnly(c1, c', e)
    requires c'.lists == c1.lists && c'.usage == c1.usage - c1.items[e].charge
    ensures Settled(c, c', capacity, e, c1.items[e].tag, c1.items[e].charge, n)
  {
    var tag := c1.items[e].tag;
    forall other | other != tag ensures SameTag(c, c', c.lists.lru[..n], other) {
      assert SameTag(c, c1, c.lists.lru[..n], other);
    }
  }

  lemma EvictedItem(c: GoodCache, c': GoodCache, e: nat)
    requires e in c.items && c.items[e].refs == 2 && EvictsOnly(c, c', e) && Keeps(c, c') && c.items[e].inCache
    ensures e in c'.items && c'.items[e].tag == c.items[e].tag && c'.items[e].charge == c.items[e].charge
    ensures !c'.items[e].inCache
    ensures c'.lists == c.lists && c.items[e].tag !in c'.index
  {
  }

  /** What Create leaves, field by field. */
  lemma CreateStep(c: GoodCache, tag: Tag, charge: nat) returns (c': GoodCache)
    ensures var e := c.nextId;
      && InUse in c.lists.f.prev && e !in c.items
      && c'.items == c.items[e := Item(tag, charge, 1, false)] && c'.lists.f == Relinked(c.lists.f, InUse, Entry(e))
      && c'.index == c.index && c'.usage == c.usage && c'.total == c.total + charge && c'.deleted == c.deleted
      && c'.nextId == e + 1 && e in c'.handles && c'.handles[e] == 1 && c'.lists.lru == c.lists.lru
    ensures Keeps(c, c')
    ensures IdleOthers(c', tag) == IdleOthers(c, tag) && OldCharge(c', tag) == OldCharge(c, tag)
    ensures SameWeights(c.items, c'.items, IdleOthers(c, tag))
  {
    NotLive(c);
    c' := CreateOk(c, tag, charge);
    CreateKeeps(c, tag, charge);
    CreatedIdle(c, c', tag, Item(tag, charge, 1, false), Place(true, |c.lists.inUse|));
  }

  lemma CreateKeeps(c: GoodCache, tag: Tag, charge: nat)
    requires InUse in c.lists.f.prev
    ensures Keeps(c, Created(c, tag, charge))
  {
    NotLive(c);
    var c' := Created(c, tag, charge);
    forall x ensures KeptAt(c, c', x) {
      if x in c.items { MadeBefore(c, x); }
    }
  }

  /** Changing one entry's item commutes with evicting another. */
  lemma EvictOther(m: Mem, a: nat, e: nat, x: Item)
    requires a != e && a in m.items && CanUnref(Uncached(m, a), a)
    ensures var m1 := m.(items := m.items[e := x]);
      CanUnref(Uncached(m1, a), a) && Unreffed(Uncached(m1, a), a)
      == (var r := Unreffed(Uncached(m, a), a); r.(items := r.items[e := x]))
  {
    var m1 := m.(items := m.items[e := x]);
    var r := Unreffed(Uncached(m, a), a);
    assert m1.items - {a} == (m.items - {a})[e := x];
    assert Unreffed(Uncached(m1, a), a).items == r.items[e := x];
  }

  lemma CacheInKeeps(c: GoodCache, e: nat)
    requires e in c.items && e in c.handles
    ensures Keeps(c, CachedIn(c, e))
  {
    forall x ensures KeptAt(c, CachedIn(c, e), x) { }
  }

  /** The cache once a new entry has entered it, in place of an old one of its key. */
  lemma Replaced(c: GoodCache, e: nat) returns (c': GoodCache)
    requires e in c.items && !c.items[e].inCache && c.items[e].refs == 1
    ensures var x := c.items[e];
      var m := MemOf(c).(items := c.items[e := Item(x.tag, x.charge, 2, true)]);
      && (x.tag in c.index ==>
            var a := c.index[x.tag];
            && a != e && a in c.items && c.usage >= c.items[a].charge && CanUnref(Uncached(m, a), a)
            && MemOf(c') == Unreffed(Uncached(m, a), a) && c'.usage == c.usage + x.charge - c.items[a].charge)
      && (x.tag !in c.index ==> MemOf(c') == m && c'.usage == c.usage + x.charge)
      && c'.index == c.index[x.tag := e] && c'.nextId == c.nextId
      && e in c'.items && c'.items[e] == Item(x.tag, x.charge, 2, true)
      && c'.lists.lru == IdleOthers(c, x.tag) && SameWeights(c.items, c'.items, c'.lists.lru)
    ensures Keeps(c, c')
  {
    var x := c.items[e];
    KeepsSelf(c);
    if x.tag in c.index {
      var a := c.index[x.tag];
      Indexed(c, x.tag);
      var c2 := EvictStep(c, a);
      OthersSame(c, c2, a, e);
      EvictOther(MemOf(c), a, e, Item(x.tag, x.charge, 2, true));
      c' := CacheInOk(c2, e);
      CacheInKeeps(c2, e);
      KeepsTransitive(c, c2, c');
      ReplacedIdle(c, c2, c', a, e);
    } else {
      c' := CacheInOk(c, e);
      CacheInKeeps(c, e);
      IdleWeights(c, c', e, e);
    }
  }

  lemma ReplacedIdle(c: GoodCache, c2: GoodCache, c': GoodCache, a: nat, e: nat)
    requires e in c.items && c.items[e].tag in c.index && a == c.index[c.items[e].tag] && a in c.items && a != e
    requires EvictsOnly(c, c2, a) && ListsAfter(c, c2, a) && e in c2.items && c2.items[e] == c.items[e]
    requires e in c2.handles && c.items[e].refs == 1 && c' == CachedIn(c2, e)
    ensures c'.lists.lru == IdleOthers(c, c.items[e].tag) && SameWeights(c.items, c'.items, c'.lists.lru)
  {
    forall x | x in c'.items && x != e && x != a ensures x in c.items && c.items[x] == c'.items[x] {
      assert x in c2.items - {a};
      assert x in c.items - {a} && (c.items - {a})[x] == (c2.items - {a})[x];
    }
    IdleWeights(c, c', e, a);
    if c.items[a].refs != 1 { assert !IsIdle(c, a); }
  }

  lemma HandleOf(c1: Cache, c2: Cache, c3: Cache, e: nat)
    requires Keeps(c1, c2) && Keeps(c2, c3) && e in c1.items && e in c1.handles && c1.handles[e] == 1
    ensures e in c3.handles && c3.handles[e] == 1
  {
    assert KeptAt(c1, c2, e) && KeptAt(c2, c3, e);
  }

  /** The entry next to go is as it was. */
  lemma StillThere(c0: GoodCache, c: GoodCache, n: nat)
    requires Trimmed(c0, c, n) && c.lists.lru != []
    ensures n < |c0.lists.lru| && c0.lists.lru[n] == c.lists.lru[0]
    ensures var a := c.lists.lru[0];
      a in c0.items && a in c.items && c0.items[a] == c.items[a]
  {
    var s := c0.lists.lru;
    PlacedIsDistinct(c0.lists.place, false, s);
    assert PlacedAt(c0.lists.place, false, s, n);
    assert ListedAt(c0, s[n]);
    assert SameItem(c0, c, s[..n], s[n]);
  }

  /** The first entry of the lru list is idle, and lru_.next points to it. */
  lemma Oldest(c: GoodCache)
    requires c.lists.lru != []
    ensures var a := c.lists.lru[0];
      && Lru in c.lists.f.next && c.lists.f.next[Lru] == Entry(a)
      && a in c.items && c.items[a].inCache && c.items[a].refs == 1 && Find(c.index, c.items[a].tag) == At(a)
      && a in c.lists.place && c.lists.place[a] == Place(false, 0)
  {
    var a := c.lists.lru[0];
    assert JoinAt(c.lists.f, false, c.lists.lru, 0);
    assert PlacedAt(c.lists.place, false, c.lists.lru, 0);
    assert ListedAt(c, a);
    assert LiveAt(c, a);
  }

  lemma NoOldest(c: GoodCache)
    ensures Lru in c.lists.f.next && (c.lists.f.next[Lru] == Lru <==> c.lists.lru == [])
  {
    assert JoinAt(c.lists.f, false, c.lists.lru, 0);
  }

  lemma OthersSame(c: Cache, c': Cache, a: nat, e: nat)
    requires a in c.items && EvictsOnly(c, c', a) && e in c.items && e != a
    ensures e in c'.items && c'.items[e] == c.items[e]
  {
    assert e in c.items - {a} && (c.items - {a})[e] == c.items[e];
    assert e in c'.items - {a} && (c'.items - {a})[e] == c'.items[e];
  }

  lemma Indexed(c: GoodCache, tag: Tag)
    requires tag in c.index
    ensures c.index[tag] in c.items && c.items[c.index[tag]].inCache && c.items[c.index[tag]].tag == tag
  {
    assert IndexAt(c, tag);
  }

  lemma InTable(c: GoodCache, e: nat)
    requires e in c.items
    ensures c.items[e].inCache <==> Find(c.index, c.items[e].tag) == At(e)
  {
    assert LiveAt(c, e);
  }

  lemma KeepsSelf(c: Cache)
    ensures Keeps(c, c)
  {
  }
}

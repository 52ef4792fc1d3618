/**
  The chained hash table of include/pdlfs-common/hashmap.h.  Entries are named by numbers;
  their next_hash fields are a map, and a pointer to a slot is a bucket or such a field.
 */
module HashChains {

  datatype Ptr = Null | At(id: nat)

  /** What an entry is found by. */
  datatype Tag = Tag(key: string, hash: nat)

  /** The bucket of a hash: hash & (length - 1). */
  type Home = nat -> nat

  datatype Slot = Bucket(index: nat) | NextOf(id: nat)

  function Start(c: seq<nat>, i: nat): Ptr {
    if i < |c| then At(c[i]) else Null
  }

  /** The next_hash field of the entry at position i leads to the one after it. */
  ghost predicate LinkAt(next: map<nat, Ptr>, c: seq<nat>, i: nat)
    requires i < |c|
  {
    c[i] in next && next[c[i]] == Start(c, i + 1)
  }

  /** Following next from p visits exactly c. */
  ghost predicate Chain(next: map<nat, Ptr>, p: Ptr, c: seq<nat>) {
    p == Start(c, 0) && forall i {:trigger LinkAt(next, c, i)} :: 0 <= i < |c| ==> LinkAt(next, c, i)
  }

  ghost predicate Linked(buckets: seq<Ptr>, next: map<nat, Ptr>, chains: seq<seq<nat>>) {
    |buckets| == |chains| && forall b {:trigger Chain(next, buckets[b], chains[b])} ::
      0 <= b < |buckets| ==> Chain(next, buckets[b], chains[b])
  }

  /** The entry index has for a tag is in the chain of its hash, at pos. */
  ghost predicate FiledTag(home: Home, tags: map<nat, Tag>, index: map<Tag, nat>, chains: seq<seq<nat>>,
      pos: map<Tag, nat>, tag: Tag)
    requires tag in index
  {
    && home(tag.hash) < |chains| && tag in pos && pos[tag] < |chains[home(tag.hash)]|
    && chains[home(tag.hash)][pos[tag]] == index[tag] && index[tag] in tags && tags[index[tag]] == tag
  }

  /** Everything in index is in the chains. */
  ghost predicate Filed(home: Home, tags: map<nat, Tag>, index: map<Tag, nat>, chains: seq<seq<nat>>,
      pos: map<Tag, nat>) {
    forall tag {:trigger FiledTag(home, tags, index, chains, pos, tag)} ::
      tag in index ==> FiledTag(home, tags, index, chains, pos, tag)
  }

  /** The entry at position i of chain b is in index, and belongs there. */
  ghost predicate FiledAt(home: Home, tags: map<nat, Tag>, index: map<Tag, nat>, pos: map<Tag, nat>, b: nat, i: nat,
      id: nat) {
    && id in tags && tags[id] in index && index[tags[id]] == id
    && home(tags[id].hash) == b && tags[id] in pos && pos[tags[id]] == i
  }

  /** Nothing else is in the chains. */
  ghost predicate Exact(home: Home, tags: map<nat, Tag>, index: map<Tag, nat>, chains: seq<seq<nat>>,
      pos: map<Tag, nat>) {
    forall b, i {:trigger FiledAt(home, tags, index, pos, b, i, chains[b][i])} ::
      0 <= b < |chains| && 0 <= i < |chains[b]| ==> FiledAt(home, tags, index, pos, b, i, chains[b][i])
  }

  function Pointee(buckets: seq<Ptr>, next: map<nat, Ptr>, slot: Slot): Ptr {
    match slot
    case Bucket(i) => if i < |buckets| then buckets[i] else Null
    case NextOf(id) => if id in next then next[id] else Null
  }

  /** The slot in front of position k of the chain of bucket b. */
  function SlotAt(b: nat, c: seq<nat>, k: nat): Slot
    requires k <= |c|
  {
    if k == 0 then Bucket(b) else NextOf(c[k - 1])
  }

  function WriteBuckets(buckets: seq<Ptr>, slot: Slot, p: Ptr): seq<Ptr> {
    if slot.Bucket? && slot.index < |buckets| then buckets[slot.index := p] else buckets
  }

  function WriteNext(next: map<nat, Ptr>, slot: Slot, p: Ptr): map<nat, Ptr> {
    if slot.NextOf? then next[slot.id := p] else next
  }

  /** The chain with the entry at position k, if any, replaced by mid. */
  function Splice(c: seq<nat>, k: nat, mid: seq<nat>): seq<nat>
    requires k <= |c|
  {
    c[..k] + mid + (if k < |c| then c[k + 1..] else [])
  }

  // ------------------------------------------------------------------- one chain

  /** The id at position k is nowhere else in the chain. */
  ghost predicate OnlyAt(c: seq<nat>, k: nat) {
    forall i :: 0 <= i < |c| && i != k && k < |c| ==> c[i] != c[k]
  }

  /** Writing the slot at k to skip position k removes it from the chain. */
  lemma ChainRemove(next: map<nat, Ptr>, p: Ptr, c: seq<nat>, k: nat, b: nat)
    requires Chain(next, p, c) && k < |c| && (k > 0 ==> OnlyAt(c, k - 1))
    ensures Chain(WriteNext(next, SlotAt(b, c, k), Start(c, k + 1)), if k == 0 then Start(c, 1) else p,
      Splice(c, k, []))
  {
    var c', next' := Splice(c, k, []), WriteNext(next, SlotAt(b, c, k), Start(c, k + 1));
    assert forall i :: 0 <= i < |c'| ==> c'[i] == c[if i < k then i else i + 1];
    forall i | 0 <= i < |c'| ensures LinkAt(next', c', i) {
      var j := if i < k then i else i + 1;
      assert LinkAt(next, c, j);
    }
  }

  /** Writing a new entry into the slot at k puts it in place of position k. */
  lemma ChainInject(next: map<nat, Ptr>, p: Ptr, c: seq<nat>, k: nat, b: nat, e: nat)
    requires Chain(next, p, c) && k <= |c| && e !in c && (k > 0 ==> OnlyAt(c, k - 1))
    ensures Chain(WriteNext(next[e := Start(c, k + 1)], SlotAt(b, c, k), At(e)), if k == 0 then At(e) else p,
      Splice(c, k, [e]))
  {
    var c' := Splice(c, k, [e]);
    assert forall i :: 0 <= i < |c'| ==> c'[i] == if i == k then e else c[i];
    var next' := WriteNext(next[e := Start(c, k + 1)], SlotAt(b, c, k), At(e));
    forall i | 0 <= i < |c'| ensures LinkAt(next', c', i) {
      if i != k { assert LinkAt(next, c, i); }
    }
  }

  lemma ChainPush(next: map<nat, Ptr>, p: Ptr, c: seq<nat>, e: nat)
    requires Chain(next, p, c) && e !in c
    ensures Chain(next[e := p], At(e), [e] + c)
  {
    var c', next' := [e] + c, next[e := p];
    forall i | 0 <= i < |c'| ensures LinkAt(next', c', i) {
      if i > 0 { assert LinkAt(next, c, i - 1); }
    }
  }

  /** A chain does not notice writes to ids it does not hold. */
  lemma ChainFrame(next: map<nat, Ptr>, p: Ptr, c: seq<nat>, id: nat, q: Ptr)
    requires Chain(next, p, c) && id !in c
    ensures Chain(next[id := q], p, c)
  {
    var next' := next[id := q];
    forall i | 0 <= i < |c| ensures LinkAt(next', c, i) { assert LinkAt(next, c, i); }
  }

  // ------------------------------------------------------------------- all chains

  lemma ChainsDiffer(home: Home, tags: map<nat, Tag>, index: map<Tag, nat>, chains: seq<seq<nat>>, pos: map<Tag, nat>,
      b: nat, i: nat, b': nat, i': nat)
    requires Exact(home, tags, index, chains, pos) && b < |chains| && i < |chains[b]| && b' < |chains|
    requires i' < |chains[b']|
    requires b != b' || i != i'
    ensures chains[b][i] != chains[b'][i']
  {
    assert FiledAt(home, tags, index, pos, b, i, chains[b][i])
      && FiledAt(home, tags, index, pos, b', i', chains[b'][i']);
  }

  lemma ChainOnlyAt(home: Home, tags: map<nat, Tag>, index: map<Tag, nat>, chains: seq<seq<nat>>, pos: map<Tag, nat>,
      b: nat, k: nat)
    requires Exact(home, tags, index, chains, pos) && b < |chains| && k < |chains[b]|
    ensures OnlyAt(chains[b], k)
  {
    forall i | 0 <= i < |chains[b]| && i != k ensures chains[b][i] != chains[b][k] {
      ChainsDiffer(home, tags, index, chains, pos, b, i, b, k);
    }
  }

  /** An id that index does not lead to is in no chain. */
  lemma NotInChains(home: Home, tags: map<nat, Tag>, index: map<Tag, nat>, chains: seq<seq<nat>>, pos: map<Tag, nat>,
      e: nat, b: nat)
    requires Exact(home, tags, index, chains, pos) && b < |chains|
    requires e in tags && tags[e] in index ==> index[tags[e]] != e
    ensures e !in chains[b]
  {
    forall i | 0 <= i < |chains[b]| ensures chains[b][i] != e {
      assert FiledAt(home, tags, index, pos, b, i, chains[b][i]);
    }
  }

  lemma NotInOther(home: Home, tags: map<nat, Tag>, index: map<Tag, nat>, chains: seq<seq<nat>>, pos: map<Tag, nat>,
      b: nat, i: nat, b': nat)
    requires Exact(home, tags, index, chains, pos) && b < |chains| && i < |chains[b]| && b' < |chains| && b != b'
    ensures chains[b][i] !in chains[b']
  {
    forall i' | 0 <= i' < |chains[b']| ensures chains[b'][i'] != chains[b][i] {
      ChainsDiffer(home, tags, index, chains, pos, b, i, b', i');
    }
  }

  /** One chain changed, at a slot of its own bucket; the others still hold. */
  lemma LinkedFrom(buckets: seq<Ptr>, chains: seq<seq<nat>>, b: nat, slot: Slot, q: Ptr, next: map<nat, Ptr>,
      c': seq<nat>)
    requires |buckets| == |chains| && b < |buckets| && (slot.Bucket? ==> slot.index == b)
    requires Chain(next, if slot.Bucket? then q else buckets[b], c')
    requires forall b' :: 0 <= b' < |chains| && b' != b ==> Chain(next, buckets[b'], chains[b'])
    ensures Linked(WriteBuckets(buckets, slot, q), next, chains[b := c'])
  {
    var buckets', chains' := WriteBuckets(buckets, slot, q), chains[b := c'];
    forall b' | 0 <= b' < |chains| ensures Chain(next, buckets'[b'], chains'[b']) {
      if b' != b { assert Chain(next, buckets[b'], chains[b']); }
    }
  }

  lemma LinkedRemove(home: Home, buckets: seq<Ptr>, next: map<nat, Ptr>, tags: map<nat, Tag>, index: map<Tag, nat>,
      chains: seq<seq<nat>>, pos: map<Tag, nat>, b: nat, k: nat)
    requires Linked(buckets, next, chains) && Exact(home, tags, index, chains, pos) && b < |chains| && k < |chains[b]|
    ensures var c := chains[b];
      var slot := SlotAt(b, c, k);
      Linked(WriteBuckets(buckets, slot, Start(c, k + 1)), WriteNext(next, slot, Start(c, k + 1)),
        chains[b := Splice(c, k, [])])
  {
    var c, slot := chains[b], SlotAt(b, chains[b], k);
    var next' := WriteNext(next, slot, Start(c, k + 1));
    if k > 0 { ChainOnlyAt(home, tags, index, chains, pos, b, k - 1); }
    assert Chain(next, buckets[b], c);
    ChainRemove(next, buckets[b], c, k, b);
    forall b' | 0 <= b' < |chains| && b' != b ensures Chain(next', buckets[b'], chains[b']) {
      assert Chain(next, buckets[b'], chains[b']);
      if k > 0 {
        NotInOther(home, tags, index, chains, pos, b, k - 1, b');
        ChainFrame(next, buckets[b'], chains[b'], c[k - 1], Start(c, k + 1));
      }
    }
    LinkedFrom(buckets, chains, b, slot, Start(c, k + 1), next', Splice(c, k, []));
  }

  lemma LinkedInject(home: Home, buckets: seq<Ptr>, next: map<nat, Ptr>, tags: map<nat, Tag>, index: map<Tag, nat>,
      chains: seq<seq<nat>>, pos: map<Tag, nat>, b: nat, k: nat, e: nat)
    requires Linked(buckets, next, chains) && Exact(home, tags, index, chains, pos) && b < |chains| && k <= |chains[b]|
    requires e in tags && tags[e] in index ==> index[tags[e]] != e
    ensures var c := chains[b];
      var slot := SlotAt(b, c, k);
      Linked(WriteBuckets(buckets, slot, At(e)), WriteNext(next[e := Start(c, k + 1)], slot, At(e)),
        chains[b := Splice(c, k, [e])])
  {
    var c, slot := chains[b], SlotAt(b, chains[b], k);
    var next1 := next[e := Start(c, k + 1)];
    var next2 := WriteNext(next1, slot, At(e));
    if k > 0 { ChainOnlyAt(home, tags, index, chains, pos, b, k - 1); }
    NotInChains(home, tags, index, chains, pos, e, b);
    assert Chain(next, buckets[b], c);
    ChainInject(next, buckets[b], c, k, b, e);
    forall b' | 0 <= b' < |chains| && b' != b ensures Chain(next2, buckets[b'], chains[b']) {
      assert Chain(next, buckets[b'], chains[b']);
      NotInChains(home, tags, index, chains, pos, e, b');
      ChainFrame(next, buckets[b'], chains[b'], e, Start(c, k + 1));
      if k > 0 {
        NotInOther(home, tags, index, chains, pos, b, k - 1, b');
        ChainFrame(next1, buckets[b'], chains[b'], c[k - 1], At(e));
      }
    }
    LinkedFrom(buckets, chains, b, slot, At(e), next2, Splice(c, k, [e]));
  }

  lemma LinkedPush(home: Home, buckets: seq<Ptr>, next: map<nat, Ptr>, tags: map<nat, Tag>, index: map<Tag, nat>,
      chains: seq<seq<nat>>, pos: map<Tag, nat>, b: nat, e: nat)
    requires Linked(buckets, next, chains) && Exact(home, tags, index, chains, pos) && b < |chains|
    requires e in tags && tags[e] in index ==> index[tags[e]] != e
    ensures Linked(buckets[b := At(e)], next[e := buckets[b]], chains[b := [e] + chains[b]])
  {
    var next' := next[e := buckets[b]];
    NotInChains(home, tags, index, chains, pos, e, b);
    assert Chain(next, buckets[b], chains[b]);
    ChainPush(next, buckets[b], chains[b], e);
    forall b' | 0 <= b' < |chains| && b' != b ensures Chain(next', buckets[b'], chains[b']) {
      assert Chain(next, buckets[b'], chains[b']);
      NotInChains(home, tags, index, chains, pos, e, b');
      ChainFrame(next, buckets[b'], chains[b'], e, buckets[b]);
    }
    LinkedFrom(buckets, chains, b, Bucket(b), At(e), next', [e] + chains[b]);
  }

  // -------------------------------------------------------------- where entries are

  /** Positions after the entry at position k of chain b has gone. */
  function PosRemoved(home: Home, pos: map<Tag, nat>, b: nat, k: nat): map<Tag, nat> {
    map tag | tag in pos :: if home(tag.hash) == b && pos[tag] > k then pos[tag] - 1 else pos[tag]
  }

  lemma RemoveFiled(home: Home, tags: map<nat, Tag>, index: map<Tag, nat>, chains: seq<seq<nat>>, pos: map<Tag, nat>,
      b: nat, k: nat, tag: Tag)
    requires Filed(home, tags, index, chains, pos) && tag in index && tag in pos && b == home(tag.hash) && k == pos[tag]
    requires b < |chains| && k < |chains[b]|
    ensures Filed(home, tags, index - {tag}, chains[b := Splice(chains[b], k, [])], PosRemoved(home, pos, b, k))
  {
    var c' := Splice(chains[b], k, []);
    assert forall i :: 0 <= i < |c'| ==> c'[i] == chains[b][if i < k then i else i + 1];
    var index', chains', pos' := index - {tag}, chains[b := c'], PosRemoved(home, pos, b, k);
    assert FiledTag(home, tags, index, chains, pos, tag);
    forall x | x in index' ensures FiledTag(home, tags, index', chains', pos', x) {
      assert FiledTag(home, tags, index, chains, pos, x);
    }
  }

  lemma RemoveExact(home: Home, tags: map<nat, Tag>, index: map<Tag, nat>, chains: seq<seq<nat>>, pos: map<Tag, nat>,
      b: nat, k: nat, tag: Tag)
    requires Exact(home, tags, index, chains, pos) && b < |chains| && k < |chains[b]|
    requires FiledAt(home, tags, index, pos, b, k, chains[b][k]) && tags[chains[b][k]] == tag
    ensures Exact(home, tags, index - {tag}, chains[b := Splice(chains[b], k, [])], PosRemoved(home, pos, b, k))
  {
    var c' := Splice(chains[b], k, []);
    var chains', pos' := chains[b := c'], PosRemoved(home, pos, b, k);
    assert forall i :: 0 <= i < |c'| ==> c'[i] == chains[b][if i < k then i else i + 1];
    forall b', i | 0 <= b' < |chains'| && 0 <= i < |chains'[b']|
      ensures FiledAt(home, tags, index - {tag}, pos', b', i, chains'[b'][i])
    {
      var j := if b' == b && i >= k then i + 1 else i;
      assert FiledAt(home, tags, index, pos, b', j, chains[b'][j]);
    }
  }

  /** The new entry stands where the search for its tag ended. */
  lemma InjectFiled(home: Home, tags: map<nat, Tag>, index: map<Tag, nat>, chains: seq<seq<nat>>, pos: map<Tag, nat>,
      b: nat, k: nat, e: nat)
    requires Filed(home, tags, index, chains, pos) && e in tags && b == home(tags[e].hash) < |chains|
    requires k <= |chains[b]|
    requires k < |chains[b]| ==> chains[b][k] in tags && tags[chains[b][k]] == tags[e]
    ensures Filed(home, tags, index[tags[e] := e], chains[b := Splice(chains[b], k, [e])], pos[tags[e] := k])
  {
    var c' := Splice(chains[b], k, [e]);
    assert forall i :: 0 <= i < |c'| ==> c'[i] == if i == k then e else chains[b][i];
    assert |c'| >= |chains[b]|;
    var index', chains', pos' := index[tags[e] := e], chains[b := c'], pos[tags[e] := k];
    forall x | x in index' ensures FiledTag(home, tags, index', chains', pos', x) {
      if x != tags[e] { assert FiledTag(home, tags, index, chains, pos, x); }
    }
  }

  lemma InjectExact(home: Home, tags: map<nat, Tag>, index: map<Tag, nat>, chains: seq<seq<nat>>, pos: map<Tag, nat>,
      b: nat, k: nat, e: nat)
    requires Exact(home, tags, index, chains, pos) && e in tags && b == home(tags[e].hash) < |chains|
    requires k <= |chains[b]|
    requires forall i :: 0 <= i < |chains[b]| && i != k ==> chains[b][i] in tags && tags[chains[b][i]] != tags[e]
    ensures Exact(home, tags, index[tags[e] := e], chains[b := Splice(chains[b], k, [e])], pos[tags[e] := k])
  {
    var c' := Splice(chains[b], k, [e]);
    assert forall i :: 0 <= i < |c'| ==> c'[i] == if i == k then e else chains[b][i];
    var index', chains', pos' := index[tags[e] := e], chains[b := c'], pos[tags[e] := k];
    forall b', i | 0 <= b' < |chains'| && 0 <= i < |chains'[b']|
      ensures FiledAt(home, tags, index', pos', b', i, chains'[b'][i])
    {
      if b' != b || i != k { assert FiledAt(home, tags, index, pos, b', i, chains[b'][i]); }
    }
  }

  /** Positions after an entry has been pushed in front of chain b. */
  function PosPushed(home: Home, pos: map<Tag, nat>, b: nat, tag: Tag): map<Tag, nat> {
    (map t | t in pos :: if home(t.hash) == b then pos[t] + 1 else pos[t])[tag := 0]
  }

  lemma PushFiled(home: Home, tags: map<nat, Tag>, index: map<Tag, nat>, chains: seq<seq<nat>>, pos: map<Tag, nat>,
      b: nat, e: nat)
    requires Filed(home, tags, index, chains, pos) && e in tags && b == home(tags[e].hash) < |chains|
    requires tags[e] !in index
    ensures Filed(home, tags, index[tags[e] := e], chains[b := [e] + chains[b]], PosPushed(home, pos, b, tags[e]))
  {
    var index', chains', pos' := index[tags[e] := e], chains[b := [e] + chains[b]], PosPushed(home, pos, b, tags[e]);
    forall x | x in index' ensures FiledTag(home, tags, index', chains', pos', x) {
      if x != tags[e] { assert FiledTag(home, tags, index, chains, pos, x); }
    }
  }

  lemma PushExact(home: Home, tags: map<nat, Tag>, index: map<Tag, nat>, chains: seq<seq<nat>>, pos: map<Tag, nat>,
      b: nat, e: nat)
    requires Exact(home, tags, index, chains, pos) && e in tags && b == home(tags[e].hash) < |chains|
    requires tags[e] !in index
    ensures Exact(home, tags, index[tags[e] := e], chains[b := [e] + chains[b]], PosPushed(home, pos, b, tags[e]))
  {
    var index', chains', pos' := index[tags[e] := e], chains[b := [e] + chains[b]], PosPushed(home, pos, b, tags[e]);
    forall b', i | 0 <= b' < |chains'| && 0 <= i < |chains'[b']|
      ensures FiledAt(home, tags, index', pos', b', i, chains'[b'][i])
    {
      if b' != b {
        assert FiledAt(home, tags, index, pos, b', i, chains[b'][i]);
      } else if i > 0 {
        assert FiledAt(home, tags, index, pos, b, i - 1, chains[b][i - 1]);
      }
    }
  }
}

module HashTables {
  import opened Binary
  import opened HashChains

  /** The fields of a table, with the map they stand for, its chains and positions in them. */
  datatype State = State(home: Home, buckets: seq<Ptr>, next: map<nat, Ptr>, tags: map<nat, Tag>,
                         index: map<Tag, nat>, chains: seq<seq<nat>>, pos: map<Tag, nat>)

  ghost predicate Ok(t: State) {
    && (forall h :: t.home(h) < |t.chains|)
    && Linked(t.buckets, t.next, t.chains)
    && Filed(t.home, t.tags, t.index, t.chains, t.pos) && Exact(t.home, t.tags, t.index, t.chains, t.pos)
  }

  type Table = t: State | Ok(t) ghost witness State(h => 0, [Null], map[], map[], map[], [[]], map[])

  lemma Assembled(s: State) returns (t: Table)
    requires forall h :: s.home(h) < |s.chains|
    requires Linked(s.buckets, s.next, s.chains)
    requires Filed(s.home, s.tags, s.index, s.chains, s.pos)
    requires Exact(s.home, s.tags, s.index, s.chains, s.pos)
    ensures t == s
  {
    t := s;
  }

  ghost function HomeOf(n: nat): Home
    requires n > 0
  {
    (h: nat) => h % n
  }

  /** Where the search for a tag ends: at position k of its chain. */
  ghost predicate Ends(t: Table, tag: Tag, slot: Slot, k: nat) {
    && t.home(tag.hash) < |t.chains|
    && var c := t.chains[t.home(tag.hash)];
      && k <= |c| && slot == SlotAt(t.home(tag.hash), c, k)
      && (forall i :: 0 <= i < k ==> c[i] in t.tags && t.tags[c[i]] != tag)
      && (k < |c| ==> c[k] in t.tags && t.tags[c[k]] == tag)
  }

  /** The search ends at the entry with the tag if there is one, else at the end of the chain. */
  lemma SearchFinds(t: Table, tag: Tag, slot: Slot, k: nat)
    requires Ends(t, tag, slot, k)
    ensures var c := t.chains[t.home(tag.hash)];
      && (tag in t.index <==> k < |c|)
      && (tag in t.index ==>
            c[k] == t.index[tag] && tag in t.pos && k == t.pos[tag] && t.index[tag] in t.tags &&
            t.tags[t.index[tag]] == tag)
  {
    var b := t.home(tag.hash);
    var c := t.chains[b];
    if k < |c| { assert FiledAt(t.home, t.tags, t.index, t.pos, b, k, c[k]); }
    if tag in t.index { assert FiledTag(t.home, t.tags, t.index, t.chains, t.pos, tag); }
  }

  /** What the slot holds, and what it would hold without that entry. */
  lemma SlotHolds(t: Table, tag: Tag, slot: Slot, k: nat)
    requires Ends(t, tag, slot, k)
    ensures var c := t.chains[t.home(tag.hash)];
      && Pointee(t.buckets, t.next, slot) == Start(c, k)
      && (k < |c| ==> c[k] in t.next && t.next[c[k]] == Start(c, k + 1))
  {
    var c := t.chains[t.home(tag.hash)];
    assert Chain(t.next, t.buckets[t.home(tag.hash)], c);
    if k > 0 { assert LinkAt(t.next, c, k - 1); }
    if k < |c| { assert LinkAt(t.next, c, k); }
  }

  /** Inject leaves a table that maps the new entry's tag to it. */
  lemma Injected(t: Table, e: nat, slot: Slot, k: nat) returns (t': Table)
    requires e in t.tags && (t.tags[e] in t.index ==> t.index[t.tags[e]] != e) && Ends(t, t.tags[e], slot, k)
    ensures t'.index == t.index[t.tags[e] := e] && t'.home == t.home && t'.tags == t.tags
    ensures t'.buckets == WriteBuckets(t.buckets, slot, At(e))
    ensures t'.next == WriteNext(t.next[e := Start(t.chains[t.home(t.tags[e].hash)], k + 1)], slot, At(e))
  {
    var b := t.home(t.tags[e].hash);
    var c := t.chains[b];
    SearchFinds(t, t.tags[e], slot, k);
    LinkedInject(t.home, t.buckets, t.next, t.tags, t.index, t.chains, t.pos, b, k, e);
    InjectFiled(t.home, t.tags, t.index, t.chains, t.pos, b, k, e);
    OnlyOneHasTag(t, t.tags[e], b, k);
    InjectExact(t.home, t.tags, t.index, t.chains, t.pos, b, k, e);
    t' := Assembled(State(t.home, WriteBuckets(t.buckets, slot, At(e)),
                          WriteNext(t.next[e := Start(c, k + 1)], slot, At(e)), t.tags,
                          t.index[t.tags[e] := e], t.chains[b := Splice(c, k, [e])], t.pos[t.tags[e] := k]));
  }

  lemma OnlyOneHasTag(t: Table, tag: Tag, b: nat, k: nat)
    requires b == t.home(tag.hash) && (tag in t.index ==> tag in t.pos && t.pos[tag] == k)
    requires tag !in t.index ==> k == |t.chains[b]|
    ensures forall i :: 0 <= i < |t.chains[b]| && i != k ==> t.chains[b][i] in t.tags && t.tags[t.chains[b][i]] != tag
  {
    forall i | 0 <= i < |t.chains[b]| && i != k ensures t.chains[b][i] in t.tags && t.tags[t.chains[b][i]] != tag {
      assert FiledAt(t.home, t.tags, t.index, t.pos, b, i, t.chains[b][i]);
    }
  }

  lemma Removed(t: Table, tag: Tag, slot: Slot, k: nat) returns (t': Table)
    requires Ends(t, tag, slot, k) && tag in t.index
    ensures t'.index == t.index - {tag} && t'.home == t.home && t'.tags == t.tags
    ensures var p := Start(t.chains[t.home(tag.hash)], k + 1);
      t'.buckets == WriteBuckets(t.buckets, slot, p) && t'.next == WriteNext(t.next, slot, p)
  {
    var b := t.home(tag.hash);
    var c := t.chains[b];
    SearchFinds(t, tag, slot, k);
    var p := Start(c, k + 1);
    LinkedRemove(t.home, t.buckets, t.next, t.tags, t.index, t.chains, t.pos, b, k);
    RemoveFiled(t.home, t.tags, t.index, t.chains, t.pos, b, k, tag);
    assert FiledAt(t.home, t.tags, t.index, t.pos, b, k, c[k]);
    RemoveExact(t.home, t.tags, t.index, t.chains, t.pos, b, k, tag);
    t' := Assembled(State(t.home, WriteBuckets(t.buckets, slot, p), WriteNext(t.next, slot, p), t.tags,
                          t.index - {tag}, t.chains[b := Splice(c, k, [])], PosRemoved(t.home, t.pos, b, k)));
  }

  /** What the slot of a search points to. */
  function Find(index: map<Tag, nat>, tag: Tag): Ptr {
    if tag in index then At(index[tag]) else Null
  }

  /** Removing the entry a search has found. */
  lemma Removal(t: Table, tag: Tag, slot: Slot, k: nat) returns (t': Table)
    requires Ends(t, tag, slot, k)
    ensures var e := Pointee(t.buckets, t.next, slot);
      && e == Find(t.index, tag)
      && (e.Null? ==> t' == t && t.index - {tag} == t.index)
      && (e.At? ==>
            && e.id in t.next && |t'.index| == |t.index| - 1
            && t'.buckets == WriteBuckets(t.buckets, slot, t.next[e.id])
            && t'.next == WriteNext(t.next, slot, t.next[e.id]))
      && t'.index == t.index - {tag} && t'.home == t.home && t'.tags == t.tags && |t'.buckets| == |t.buckets|
  {
    SearchFinds(t, tag, slot, k);
    SlotHolds(t, tag, slot, k);
    t' := t;
    if tag in t.index { t' := Removed(t, tag, slot, k); }
  }

  /** Putting a new entry into the slot a search has found. */
  lemma Insertion(t: Table, e: nat, slot: Slot, k: nat) returns (t': Table)
    requires e in t.tags && (t.tags[e] in t.index ==> t.index[t.tags[e]] != e) && Ends(t, t.tags[e], slot, k)
    ensures var old_ := Pointee(t.buckets, t.next, slot);
      && old_ == Find(t.index, t.tags[e]) && (old_.At? ==> old_.id in t.next)
      && |t'.index| == (if old_.Null? then |t.index| + 1 else |t.index|)
      && t'.buckets == WriteBuckets(t.buckets, slot, At(e))
      && t'.next == WriteNext(t.next[e := if old_.Null? then Null else t.next[old_.id]], slot, At(e))
      && t'.index == t.index[t.tags[e] := e] && t'.home == t.home && t'.tags == t.tags && |t'.buckets| == |t.buckets|
  {
    SearchFinds(t, t.tags[e], slot, k);
    SlotHolds(t, t.tags[e], slot, k);
    t' := Injected(t, e, slot, k);
  }

  /** The tag of an entry that is not in the table can be changed. */
  lemma Tagged(t: Table, e: nat, tag: Tag) returns (t': Table)
    requires e in t.tags && t.tags[e] in t.index ==> t.index[t.tags[e]] != e
    ensures t' == t.(tags := t.tags[e := tag])
  {
    var tags := t.tags[e := tag];
    forall b, i | 0 <= b < |t.chains| && 0 <= i < |t.chains[b]|
      ensures FiledAt(t.home, tags, t.index, t.pos, b, i, t.chains[b][i])
    {
      assert FiledAt(t.home, t.tags, t.index, t.pos, b, i, t.chains[b][i]);
    }
    forall x | x in t.index ensures FiledTag(t.home, tags, t.index, t.chains, t.pos, x) {
      assert FiledTag(t.home, t.tags, t.index, t.chains, t.pos, x);
    }
    t' := Assembled(t.(tags := tags));
  }

  // ---------------------------------------------------------------------- resizing

  /**
    Resize under way: of the old table, the chains before b and the first j entries of
    chain b are in the new one; the others are still linked as they were.
   */
  datatype Moving = Moving(old_: State, new_: State, b: nat, j: nat)

  ghost predicate Before(b: nat, j: nat, b': nat, i: nat) { b' < b || (b' == b && i < j) }

  /** An entry of the old table is in the new one iff it has been moved; else its link is untouched. */
  ghost predicate MovedAt(m: Moving, b: nat, i: nat)
    requires b < |m.old_.chains| && i < |m.old_.chains[b]|
  {
    var id := m.old_.chains[b][i];
    && id in m.old_.tags
    && (if Before(m.b, m.j, b, i) then m.old_.tags[id] in m.new_.index && m.new_.index[m.old_.tags[id]] == id
        else m.old_.tags[id] !in m.new_.index && LinkAt(m.new_.next, m.old_.chains[b], i))
  }

  ghost predicate MoveOk(m: Moving) {
    && Ok(m.old_) && Ok(m.new_) && m.new_.tags == m.old_.tags
    && m.b <= |m.old_.chains| && (m.j == 0 || (m.b < |m.old_.chains| && m.j <= |m.old_.chains[m.b]|))
    && (forall b, i {:trigger MovedAt(m, b, i)} :: 0 <= b < |m.old_.chains| && 0 <= i < |m.old_.chains[b]| ==>
      MovedAt(m, b, i))
    && (forall tag {:trigger tag in m.new_.index} :: tag in m.new_.index ==>
      tag in m.old_.index && m.old_.index[tag] == m.new_.index[tag])
  }

  type Move = m: Moving | MoveOk(m) ghost witness ExampleMove()

  ghost function ExampleMove(): (m: Moving)
    ensures MoveOk(m)
  {
    var t := State(h => 0, [Null], map[], map[], map[], [[]], map[]);
    Moving(t, t, 0, 0)
  }

  lemma NewMove(t: Table, home: Home, n: nat) returns (m: Move)
    requires n > 0 && home == HomeOf(n)
    ensures m.old_ == t && m.b == 0 && m.j == 0
    ensures m.new_.home == home && m.new_.buckets == seq(n, i => Null) && m.new_.next == t.next
  {
    var chains: seq<seq<nat>> := seq(n, i => []);
    var fresh_ := Assembled(State(home, seq(n, i => Null), t.next, t.tags, map[], chains, map[]));
    var mm := Moving(t, fresh_, 0, 0);
    forall b, i | 0 <= b < |t.chains| && 0 <= i < |t.chains[b]| ensures MovedAt(mm, b, i) {
      assert FiledAt(t.home, t.tags, t.index, t.pos, b, i, t.chains[b][i]);
      assert Chain(t.next, t.buckets[b], t.chains[b]);
      assert LinkAt(t.next, t.chains[b], i);
    }
    m := AssembledMove(mm);
  }

  lemma AssembledMove(mm: Moving) returns (m: Move)
    requires Ok(mm.old_) && Ok(mm.new_) && mm.new_.tags == mm.old_.tags
    requires mm.b <= |mm.old_.chains| && (mm.j == 0 || (mm.b < |mm.old_.chains| && mm.j <= |mm.old_.chains[mm.b]|))
    requires forall b, i {:trigger MovedAt(mm, b, i)} :: 0 <= b < |mm.old_.chains| && 0 <= i < |mm.old_.chains[b]| ==>
      MovedAt(mm, b, i)
    requires forall tag {:trigger tag in mm.new_.index} ::
      tag in mm.new_.index ==> tag in mm.old_.index && mm.old_.index[tag] == mm.new_.index[tag]
    ensures m == mm
  {
    m := mm;
  }

  lemma ChainStarts(m: Move)
    requires m.b < |m.old_.chains| && m.j == 0
    ensures |m.old_.buckets| == |m.old_.chains| && m.old_.buckets[m.b] == Start(m.old_.chains[m.b], 0)
  {
    assert Chain(m.old_.next, m.old_.buckets[m.b], m.old_.chains[m.b]);
  }

  /** The new table after one more entry has been pushed in front of its chain. */
  lemma Pushed(t: Table, e: nat) returns (t': Table)
    requires e in t.tags && t.tags[e] !in t.index
    ensures var b := t.home(t.tags[e].hash);
      && b < |t.buckets| && t'.buckets == t.buckets[b := At(e)] && t'.next == t.next[e := t.buckets[b]]
    ensures t'.index == t.index[t.tags[e] := e] && t'.home == t.home && t'.tags == t.tags
  {
    var b := t.home(t.tags[e].hash);
    LinkedPush(t.home, t.buckets, t.next, t.tags, t.index, t.chains, t.pos, b, e);
    PushFiled(t.home, t.tags, t.index, t.chains, t.pos, b, e);
    PushExact(t.home, t.tags, t.index, t.chains, t.pos, b, e);
    t' := Assembled(State(t.home, t.buckets[b := At(e)], t.next[e := t.buckets[b]], t.tags, t.index[t.tags[e] := e],
                          t.chains[b := [e] + t.chains[b]], PosPushed(t.home, t.pos, b, t.tags[e])));
  }

  /** What is known of the next entry to move. */
  lemma NextEntry(m: Move) returns (id: nat)
    requires m.b < |m.old_.chains| && m.j < |m.old_.chains[m.b]|
    ensures id == m.old_.chains[m.b][m.j] && id in m.old_.tags && m.old_.tags[id] !in m.new_.index
    ensures id in m.new_.next && m.new_.next[id] == Start(m.old_.chains[m.b], m.j + 1)
    ensures m.old_.tags[id] in m.old_.index && m.old_.index[m.old_.tags[id]] == id
  {
    id := m.old_.chains[m.b][m.j];
    assert MovedAt(m, m.b, m.j);
    assert FiledAt(m.old_.home, m.old_.tags, m.old_.index, m.old_.pos, m.b, m.j, id);
  }

  lemma MoveEntry(m: Move) returns (m': Move)
    requires m.b < |m.old_.chains| && m.j < |m.old_.chains[m.b]|
    ensures var id := m.old_.chains[m.b][m.j];
      && id in m.old_.tags && id in m.new_.next && m.new_.next[id] == Start(m.old_.chains[m.b], m.j + 1)
      && var h := m.new_.home(m.old_.tags[id].hash);
        && h < |m.new_.buckets| && m'.new_.buckets == m.new_.buckets[h := At(id)]
        && m'.new_.next == m.new_.next[id := m.new_.buckets[h]]
    ensures m'.old_ == m.old_ && m'.b == m.b && m'.j == m.j + 1 && m'.new_.home == m.new_.home
  {
    var id := NextEntry(m);
    var new_ := Pushed(m.new_, id);
    var mm := Moving(m.old_, new_, m.b, m.j + 1);
    forall b, i | 0 <= b < |m.old_.chains| && 0 <= i < |m.old_.chains[b]| ensures MovedAt(mm, b, i) {
      assert MovedAt(m, b, i);
      if b != m.b || i != m.j { OthersKept(m, mm, b, i); }
    }
    m' := AssembledMove(mm);
  }

  /** An entry other than the one being moved is where it was. */
  lemma OthersKept(m: Move, mm: Moving, b: nat, i: nat)
    requires m.b < |m.old_.chains| && m.j < |m.old_.chains[m.b]| && mm.old_ == m.old_ && mm.b == m.b && mm.j == m.j + 1
    requires b < |m.old_.chains| && i < |m.old_.chains[b]| && (b != m.b || i != m.j) && MovedAt(m, b, i)
    requires var id := m.old_.chains[m.b][m.j];
      && id in m.old_.tags && id in mm.new_.next && mm.new_.next == m.new_.next[id := mm.new_.next[id]]
      && mm.new_.index == m.new_.index[m.old_.tags[id] := id]
    ensures MovedAt(mm, b, i)
  {
    var t := m.old_;
    var id, x := t.chains[m.b][m.j], t.chains[b][i];
    assert FiledAt(t.home, t.tags, t.index, t.pos, m.b, m.j, id);
    assert FiledAt(t.home, t.tags, t.index, t.pos, b, i, x);
  }

  lemma NextChain(m: Move) returns (m': Move)
    requires m.b < |m.old_.chains| && m.j == |m.old_.chains[m.b]|
    ensures m' == m.(b := m.b + 1, j := 0)
  {
    var mm := m.(b := m.b + 1, j := 0);
    forall b, i | 0 <= b < |m.old_.chains| && 0 <= i < |m.old_.chains[b]| ensures MovedAt(mm, b, i) {
      assert MovedAt(m, b, i);
    }
    m' := AssembledMove(mm);
  }

  lemma FinishMove(m: Move)
    requires m.b == |m.old_.chains|
    ensures m.new_.index == m.old_.index && m.new_.tags == m.old_.tags
  {
    var t := m.old_;
    forall tag | tag in t.index ensures tag in m.new_.index {
      assert FiledTag(t.home, t.tags, t.index, t.chains, t.pos, tag);
      assert MovedAt(m, t.home(tag.hash), t.pos[tag]);
    }
  }

  /** Only then is hash & (length - 1) the remainder. */
  ghost predicate IsPowerOfTwo(n: nat) {
    exists k :: n == Pow2(k)
  }

  /** The length of the array, and what it makes of a hash. */
  datatype Length = Length(home: Home, length: nat)

  type Size = z: Length | Masks(z) ghost witness SizeOf(0)

  ghost predicate Masks(z: Length) {
    z.length > 0 && z.home == HomeOf(z.length) && IsPowerOfTwo(z.length)
  }

  ghost function SizeOf(log: nat): (z: Length)
    ensures Masks(z) && z.length == Pow2(log)
  {
    Length(HomeOf(Pow2(log)), Pow2(log))
  }

  class HashTable {
    var buckets: seq<Ptr>
    var next: map<nat, Ptr>
    var tags: map<nat, Tag>
    var elems: nat
    ghost var t: Table
    ghost var z: Size

    /** The fields are those of t; t.index is the map the table stands for. */
    ghost predicate Valid()
      reads this
    {
      && t.buckets == buckets && t.next == next && t.tags == tags && elems == |t.index|
      && t.home == z.home && |buckets| == z.length
    }

    /** There are at least as many buckets as entries. */
    ghost predicate Light()
      reads this
    {
      elems <= |buckets|
    }

    constructor ()
      ensures Valid() && Light() && t.index == map[] && tags == map[]
    {
      assert 4 == Pow2(2);
      z := SizeOf(2);
      buckets, next, tags, elems := seq(4, i => Null), map[], map[], 0;
      ghost var chains: seq<seq<nat>> := seq(4, i => []);
      ghost var empty := Assembled(State(HomeOf(4), seq(4, i => Null), map[], map[], map[], chains, map[]));
      t := empty;
    }

    /** FindPointer: the slot of the matching entry, or the last slot of the chain. */
    method FindPointer(tag: Tag) returns (slot: Slot, ghost k: nat)
      requires Valid()
      ensures Ends(t, tag, slot, k)
    {
      var b := tag.hash % |buckets|;
      ghost var c := ChainOf(t, tag.hash);
      slot, k := Walk(tag, b, c);
    }

    method Walk(tag: Tag, b: nat, ghost c: seq<nat>) returns (slot: Slot, ghost k: nat)
      requires b < |buckets| && Chain(next, buckets[b], c) && forall i :: 0 <= i < |c| ==> c[i] in tags
      ensures k <= |c| && slot == SlotAt(b, c, k)
      ensures (forall i :: 0 <= i < k ==> tags[c[i]] != tag) && (k < |c| ==> tags[c[k]] == tag)
    {
      slot, k := Bucket(b), 0;
      var p := buckets[b];
      while p.At? && tags[p.id] != tag
        invariant k <= |c| && slot == SlotAt(b, c, k) && p == Start(c, k)
        invariant forall i :: 0 <= i < k ==> tags[c[i]] != tag
        decreases |c| - k
      {
        assert LinkAt(next, c, k);
        slot, p, k := NextOf(p.id), next[p.id], k + 1;
      }
    }

    method Lookup(tag: Tag) returns (e: Ptr)
      requires Valid()
      ensures e == Find(t.index, tag)
    {
      var slot: Slot;
      ghost var k: nat;
      slot, k := FindPointer(tag);
      ghost var _ := Removal(t, tag, slot, k);
      e := Pointee(buckets, next, slot);
    }

    /** Insert: the new entry takes the place of one with its key and hash, which is returned. */
    method Insert(e: nat, tag: Tag) returns (old_: Ptr)
      requires Valid() && (e in tags && tags[e] in t.index ==> t.index[tags[e]] != e)
      requires tag in t.index ==> t.index[tag] != e
      modifies this
      ensures Valid() && tags == old(tags)[e := tag] && t.index == old(t.index)[tag := e]
      ensures old_ == Find(old(t.index), tag) && (old(Light()) ==> Light())
    {
      t := Tagged(t, e, tag);
      tags := tags[e := tag];
      var slot: Slot;
      ghost var k: nat;
      slot, k := FindPointer(tag);
      old_ := Inject(e, tag, slot, k);
    }

    method Inject(e: nat, tag: Tag, slot: Slot, ghost k: nat) returns (old_: Ptr)
      requires Valid() && e in tags && tags[e] == tag && (tag in t.index ==> t.index[tag] != e) && Ends(t, tag, slot, k)
      modifies this
      ensures Valid() && tags == old(tags) && t.index == old(t.index)[tag := e] && old_ == Find(old(t.index), tag)
      ensures old(Light()) ==> Light()
    {
      ghost var t' := Insertion(t, e, slot, k);
      old_ := Pointee(buckets, next, slot);
      next := next[e := if old_.Null? then Null else next[old_.id]];
      buckets, next := WriteBuckets(buckets, slot, At(e)), WriteNext(next, slot, At(e));
      elems := if old_.Null? then elems + 1 else elems;
      t := t';
      if old_.Null? && elems > |buckets| {
        Resize();
      }
    }

    /** Remove by key and hash. */
    method Remove(tag: Tag) returns (e: Ptr)
      requires Valid()
      modifies this
      ensures Valid() && tags == old(tags) && t.index == old(t.index) - {tag} && e == Find(old(t.index), tag)
      ensures old(Light()) ==> Light()
    {
      var slot: Slot;
      ghost var k: nat;
      slot, k := FindPointer(tag);
      ghost var t' := Removal(t, tag, slot, k);
      e := Pointee(buckets, next, slot);
      if e.At? {
        buckets, next := WriteBuckets(buckets, slot, next[e.id]), WriteNext(next, slot, next[e.id]);
        elems := elems - 1;
        t := t';
      }
    }

    /** Remove an entry itself, given with its key and hash; no effect if it is not in the table. */
    method RemoveEntry(e: nat, tag: Tag) returns (removed: bool)
      requires Valid()
      modifies this
      ensures Valid() && tags == old(tags) && removed == (Find(old(t.index), tag) == At(e))
      ensures t.index == (if removed then old(t.index) - {tag} else old(t.index)) && (old(Light()) ==> Light())
    {
      var slot: Slot;
      ghost var k: nat;
      slot, k := FindPointer(tag);
      ghost var t' := Removal(t, tag, slot, k);
      removed := Pointee(buckets, next, slot) == At(e);
      if removed {
        buckets, next := WriteBuckets(buckets, slot, next[e]), WriteNext(next, slot, next[e]);
        elems := elems - 1;
        t := t';
      }
    }

    /** The least power of two from 4 on that is not below the number of entries. */
    static method LengthFor(elems: nat) returns (n: nat, ghost log: nat)
      ensures n == Pow2(log) && elems <= n <= (if elems <= 4 then 4 else 2 * elems)
    {
      n, log := 4, 2;
      while n < elems
        invariant n == Pow2(log) && (n == 4 || n < 2 * elems)
      {
        n, log := 2 * n, log + 1;
      }
    }

    /** Resize: move every entry into a new array of buckets. */
    method Resize()
      requires Valid()
      modifies this`buckets, this`next, this`t, this`z
      ensures Valid() && t.index == old(t.index) && Light() && |buckets| <= (if elems <= 4 then 4 else 2 * elems)
    {
      var n: nat;
      ghost var log: nat;
      n, log := LengthFor(elems);
      var newBuckets: seq<Ptr> := seq(n, i => Null);
      ghost var m := NewMove(t, HomeOf(n), n);
      var i, fields := 0, next;
      while i < |buckets|
        invariant i <= |buckets| && m.old_ == t && m.b == i && m.j == 0
        invariant newBuckets == m.new_.buckets && fields == m.new_.next && |newBuckets| == n && m.new_.home == HomeOf(n)
        modifies {}
      {
        newBuckets, fields, m := MoveChain(i, n, newBuckets, fields, m);
        i := i + 1;
      }
      FinishMove(m);
      buckets, next, t, z := newBuckets, fields, m.new_, SizeOf(log);
    }

    /** The inner loop of Resize: push each entry of a chain in front of its new chain. */
    method MoveChain(i: nat, n: nat, bucketsIn: seq<Ptr>, nextIn: map<nat, Ptr>, ghost mIn: Move)
      returns (newBuckets: seq<Ptr>, fields: map<nat, Ptr>, ghost m: Move)
      requires Valid() && i < |buckets| && mIn.old_ == t && mIn.b == i && mIn.j == 0 && n > 0
      requires bucketsIn == mIn.new_.buckets && nextIn == mIn.new_.next && |bucketsIn| == n
      requires mIn.new_.home == HomeOf(n)
      ensures m.old_ == t && m.b == i + 1 && m.j == 0
      ensures newBuckets == m.new_.buckets && fields == m.new_.next && |newBuckets| == n && m.new_.home == HomeOf(n)
    {
      newBuckets, fields, m := bucketsIn, nextIn, mIn;
      ghost var c := t.chains[i];
      var p := buckets[i];
      ChainStarts(m);
      while p.At?
        invariant m.old_ == t && m.b == i && m.j <= |c| && p == Start(c, m.j)
        invariant newBuckets == m.new_.buckets && fields == m.new_.next && |newBuckets| == n && m.new_.home == HomeOf(n)
        decreases |c| - m.j
      {
        ghost var m' := MoveEntry(m);
        var following := fields[p.id];
        var b := tags[p.id].hash % n;
        fields := fields[p.id := newBuckets[b]];
        newBuckets := newBuckets[b := At(p.id)];
        p, m := following, m';
      }
      m := NextChain(m);
    }
  }

  /** The chain of a hash, all of whose entries have tags. */
  lemma ChainOf(t: Table, hash: nat) returns (c: seq<nat>)
    ensures t.home(hash) < |t.chains| == |t.buckets| && c == t.chains[t.home(hash)]
    ensures Chain(t.next, t.buckets[t.home(hash)], c) && forall i :: 0 <= i < |c| ==> c[i] in t.tags
  {
    var b := t.home(hash);
    c := t.chains[b];
    assert Chain(t.next, t.buckets[b], c);
    forall i | 0 <= i < |c| ensures c[i] in t.tags { assert FiledAt(t.home, t.tags, t.index, t.pos, b, i, c[i]); }
  }
}

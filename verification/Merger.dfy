/**
  The merging iterator of src/leveldb/merger.cc: several sorted children, read as one.
  Keys are numbers, their places in the order of the comparator.
 */
module MergeCursors {
  import opened Cursors

  ghost predicate Sorted(s: seq<int>) {
    forall i, j :: 0 <= i < j < |s| ==> s[i] < s[j]
  }

  /** The number of keys below t. */
  function Below(s: seq<int>, t: int): (n: nat)
    ensures n <= |s|
    ensures forall i :: 0 <= i < n ==> s[i] < t
    ensures n < |s| ==> s[n] >= t
  {
    if s == [] || s[0] >= t then 0 else 1 + Below(s[1..], t)
  }

  function KeyAt(s: seq<int>, c: Cursor): int { if c.At? && c.i < |s| then s[c.i] else 0 }

  function Seek(s: seq<int>, t: int): Cursor { Normal(s, Below(s, t)) }

  /** The last key below t. */
  function Before(s: seq<int>, t: int): Cursor { Normal(s, Below(s, t) - 1) }

  lemma Strays(s: seq<int>, t: int, n: nat)
    requires Sorted(s) && n <= |s| && Below(s, t) != n
    ensures (n > 0 && s[n - 1] >= t) || (n < |s| && s[n] < t)
  {
    var m := Below(s, t);
    if m < n { assert m < n - 1 ==> s[m] < s[n - 1]; }
  }

  /** Below is the only place where the keys pass t. */
  lemma BelowIs(s: seq<int>, t: int, n: nat)
    requires Sorted(s) && n <= |s|
    requires n > 0 ==> s[n - 1] < t
    requires n < |s| ==> s[n] >= t
    ensures Below(s, t) == n
  {
    var m := Below(s, t);
    if m != n { Strays(s, t, n); }
  }

  /** No key between two bounds: they are the same place. */
  lemma BelowSame(s: seq<int>, t: int, t': int)
    requires Sorted(s) && t <= t'
    requires forall x :: x in s ==> x < t || x >= t'
    ensures Below(s, t) == Below(s, t')
  {
    var n := Below(s, t);
    assert n < |s| ==> s[n] in s;
    BelowIs(s, t', n);
  }

  /** Below, at a key and just after it. */
  lemma BelowKey(s: seq<int>, i: nat)
    requires Sorted(s) && i < |s|
    ensures Below(s, s[i]) == i && Below(s, s[i] + 1) == i + 1
  {
    BelowIs(s, s[i], i);
    BelowIs(s, s[i] + 1, i + 1);
  }
}

/** What the children hold together. */
module MergeUnion {
  import opened MergeCursors

  function MergeTwo(a: seq<int>, b: seq<int>): seq<int> {
    if a == [] then b else if b == [] then a
    else if a[0] < b[0] then [a[0]] + MergeTwo(a[1..], b)
    else [b[0]] + MergeTwo(a, b[1..])
  }

  /** All keys of the children, in order. */
  function Union(keys: seq<seq<int>>): seq<int> {
    if keys == [] then [] else MergeTwo(keys[0], Union(keys[1..]))
  }

  ghost predicate Has(keys: seq<seq<int>>, x: int) {
    exists i :: 0 <= i < |keys| && x in keys[i]
  }

  ghost predicate Apart(a: seq<int>, b: seq<int>) {
    forall x :: x in a ==> x !in b
  }

  ghost predicate AllSorted(keys: seq<seq<int>>) {
    forall i :: 0 <= i < |keys| ==> Sorted(keys[i])
  }

  /** Every child is sorted, and no key is in two of them. */
  ghost predicate Mergeable(keys: seq<seq<int>>) {
    && AllSorted(keys)
    && (forall i, j :: 0 <= i < j < |keys| ==> Apart(keys[i], keys[j]))
  }

  lemma {:induction false} TwoHave(a: seq<int>, b: seq<int>, x: int)
    ensures x in MergeTwo(a, b) <==> x in a || x in b
    decreases |a| + |b|
  {
    if a == [] || b == [] {
    } else if a[0] < b[0] {
      TwoHave(a[1..], b, x);
      assert a == [a[0]] + a[1..];
    } else {
      TwoHave(a, b[1..], x);
      assert b == [b[0]] + b[1..];
    }
  }

  lemma SortedCons(h: int, t: seq<int>)
    requires Sorted(t) && (forall x :: x in t ==> h < x)
    ensures Sorted([h] + t)
  {
    var s := [h] + t;
    forall i, j | 0 <= i < j < |s| ensures s[i] < s[j] {
      assert s[j] == t[j - 1] && t[j - 1] in t;
    }
  }

  lemma HeadLeast(s: seq<int>, x: int)
    requires Sorted(s) && s != [] && x in s
    ensures s[0] <= x && (x in s[1..] ==> s[0] < x)
  {
  }

  lemma {:induction false} TwoSorted(a: seq<int>, b: seq<int>)
    requires Sorted(a) && Sorted(b) && Apart(a, b)
    ensures Sorted(MergeTwo(a, b))
    decreases |a| + |b|
  {
    if a != [] && b != [] {
      if a[0] < b[0] { Headed(a, b); } else { assert a[0] in a && b[0] in b; Headed'(a, b); }
    }
  }

  lemma {:induction false} Headed(a: seq<int>, b: seq<int>)
    requires Sorted(a) && Sorted(b) && Apart(a, b) && a != [] && b != [] && a[0] < b[0]
    ensures Sorted(MergeTwo(a, b))
    decreases |a| + |b|, 0
  {
    var t := MergeTwo(a[1..], b);
    TwoSorted(a[1..], b);
    forall x | x in t ensures a[0] < x {
      TwoHave(a[1..], b, x);
      if x in b { HeadLeast(b, x); } else { HeadLeast(a, x); }
    }
    SortedCons(a[0], t);
  }

  lemma {:induction false} Headed'(a: seq<int>, b: seq<int>)
    requires Sorted(a) && Sorted(b) && Apart(a, b) && a != [] && b != [] && b[0] < a[0]
    ensures Sorted(MergeTwo(a, b))
    decreases |a| + |b|, 0
  {
    var t := MergeTwo(a, b[1..]);
    TwoSorted(a, b[1..]);
    forall x | x in t ensures b[0] < x {
      TwoHave(a, b[1..], x);
      if x in a { HeadLeast(a, x); } else { HeadLeast(b, x); }
    }
    SortedCons(b[0], t);
  }

  lemma {:induction false} UnionHas(keys: seq<seq<int>>, x: int)
    ensures x in Union(keys) <==> Has(keys, x)
  {
    if keys != [] {
      TwoHave(keys[0], Union(keys[1..]), x);
      UnionHas(keys[1..], x);
      if Has(keys, x) && x !in keys[0] {
        var i :| 0 <= i < |keys| && x in keys[i];
        assert keys[1..][i - 1] == keys[i];
      }
      if Has(keys[1..], x) {
        var i :| 0 <= i < |keys| - 1 && x in keys[1..][i];
        assert keys[i + 1] == keys[1..][i];
      }
    }
  }

  lemma NotShared(keys: seq<seq<int>>, i: nat, x: int)
    requires Mergeable(keys) && 0 < i < |keys| && x in keys[i]
    ensures x !in keys[0]
  {
    assert Apart(keys[0], keys[i]);
  }

  /** The union is sorted, so it is one list that an iterator can stand in. */
  lemma {:induction false} UnionSorted(keys: seq<seq<int>>)
    requires Mergeable(keys)
    ensures Sorted(Union(keys))
  {
    if keys != [] {
      UnionSorted(keys[1..]);
      forall x | x in keys[0] ensures x !in Union(keys[1..]) {
        UnionHas(keys[1..], x);
        if Has(keys[1..], x) {
          var i :| 0 <= i < |keys| - 1 && x in keys[1..][i];
          NotShared(keys, i + 1, x);
        }
      }
      TwoSorted(keys[0], Union(keys[1..]));
    }
  }
}

module MergePlaces {
  import opened Cursors
  import opened MergeCursors
  import opened MergeUnion

  /** Every child stands at the first of its keys from t on. */
  ghost predicate Ahead(keys: seq<seq<int>>, pos: seq<Cursor>, t: int) {
    |pos| == |keys| && forall i :: 0 <= i < |keys| ==> pos[i] == Seek(keys[i], t)
  }

  /** Every child stands at the last of its keys below t. */
  ghost predicate Behind(keys: seq<seq<int>>, pos: seq<Cursor>, t: int) {
    |pos| == |keys| && forall i :: 0 <= i < |keys| ==> pos[i] == Before(keys[i], t)
  }

  /** c is a child that stands, and none stands lower. */
  ghost predicate Smallest(keys: seq<seq<int>>, pos: seq<Cursor>, c: int, n: nat)
    requires |pos| == |keys| && n <= |keys|
  {
    -1 <= c < n &&
    if c < 0 then forall j :: 0 <= j < n ==> pos[j].Off?
    else pos[c].At? && forall j :: 0 <= j < n && pos[j].At? ==> KeyAt(keys[c], pos[c]) <= KeyAt(keys[j], pos[j])
  }

  /** c is a child that stands, and none from n on stands higher. */
  ghost predicate Largest(keys: seq<seq<int>>, pos: seq<Cursor>, c: int, n: nat)
    requires |pos| == |keys| && n <= |keys|
  {
    c < |keys| &&
    if c < 0 then forall j :: n <= j < |keys| ==> pos[j].Off?
    else n <= c && pos[c].At? && forall j :: n <= j < |keys| && pos[j].At? ==>
      KeyAt(keys[j], pos[j]) <= KeyAt(keys[c], pos[c])
  }

  ghost function Where(keys: seq<seq<int>>, pos: seq<Cursor>, c: int): Cursor
    requires |pos| == |keys|
  {
    if 0 <= c < |keys| then Seek(Union(keys), KeyAt(keys[c], pos[c])) else Off
  }

  lemma ChildBelow(keys: seq<seq<int>>, i: nat, t: int, x: int)
    requires Mergeable(keys) && i < |keys| && x in keys[i] && x >= t
    ensures Seek(keys[i], t).At? && t <= KeyAt(keys[i], Seek(keys[i], t)) <= x
  {
    var j :| 0 <= j < |keys[i]| && keys[i][j] == x;
    var n := Below(keys[i], t);
    assert n <= j;
    assert n < j ==> keys[i][n] < keys[i][j];
  }

  lemma Over(s: seq<int>, t: int, j: nat)
    requires Sorted(s) && Below(s, t) <= j < |s|
    ensures s[j] >= t
  {
    var n := Below(s, t);
    assert n < j ==> s[n] < s[j];
  }

  lemma Under(s: seq<int>, t: int, j: nat)
    requires Sorted(s) && j < |s| && s[j] < t
    ensures j < Below(s, t)
  {
    if Below(s, t) <= j { Over(s, t, j); }
  }

  lemma ChildAbove(keys: seq<seq<int>>, i: nat, t: int, x: int)
    requires Mergeable(keys) && i < |keys| && x in keys[i] && x < t
    ensures Before(keys[i], t).At? && x <= KeyAt(keys[i], Before(keys[i], t)) < t
  {
    var j :| 0 <= j < |keys[i]| && keys[i][j] == x;
    var n := Below(keys[i], t);
    Under(keys[i], t, j);
    assert j < n - 1 ==> keys[i][j] < keys[i][n - 1];
  }

  lemma AllBelow(s: seq<int>, t: int)
    requires forall x :: x in s ==> x < t
    ensures Below(s, t) == |s|
  {
    var n := Below(s, t);
    if n < |s| { Member(s, n); }
  }

  lemma Member(s: seq<int>, n: nat)
    requires n < |s|
    ensures s[n] in s
  {
  }

  /** The smallest of the children is where the union passes t. */
  lemma SmallestIsSeek(keys: seq<seq<int>>, pos: seq<Cursor>, t: int, c: int)
    requires Mergeable(keys) && Ahead(keys, pos, t) && Smallest(keys, pos, c, |keys|)
    ensures Where(keys, pos, c) == Seek(Union(keys), t)
    ensures c >= 0 ==> Has(keys, KeyAt(keys[c], pos[c])) && Ahead(keys, pos, KeyAt(keys[c], pos[c]))
  {
    UnionSorted(keys);
    var u := Union(keys);
    if c < 0 {
      forall x | x in u ensures x < t {
        UnionHas(keys, x);
        var i :| 0 <= i < |keys| && x in keys[i];
        if x >= t { ChildBelow(keys, i, t, x); }
      }
      AllBelow(u, t);
    } else {
      var k := KeyAt(keys[c], pos[c]);
      assert k in keys[c] && t <= k;
      NoneBetween(keys, pos, t, c);
      BelowSame(u, t, k);
      forall i | 0 <= i < |keys| ensures pos[i] == Seek(keys[i], k) {
        forall x | x in keys[i] ensures x < t || x >= k { assert Has(keys, x); UnionHas(keys, x); }
        BelowSame(keys[i], t, k);
      }
    }
  }

  lemma NoneBetween(keys: seq<seq<int>>, pos: seq<Cursor>, t: int, c: int)
    requires Mergeable(keys) && Ahead(keys, pos, t) && Smallest(keys, pos, c, |keys|) && c >= 0
    ensures forall x :: x in Union(keys) ==> x < t || x >= KeyAt(keys[c], pos[c])
  {
    forall x | x in Union(keys) && x >= t ensures x >= KeyAt(keys[c], pos[c]) {
      UnionHas(keys, x);
      var i :| 0 <= i < |keys| && x in keys[i];
      ChildBelow(keys, i, t, x);
    }
  }

  lemma LastBelow(u: seq<int>, k: int, t: int)
    requires Sorted(u) && k in u && k < t && forall x :: x in u ==> x < k + 1 || x >= t
    ensures Seek(u, k) == Before(u, t)
  {
    BelowSame(u, k + 1, t);
    var j :| 0 <= j < |u| && u[j] == k;
    BelowKey(u, j);
  }

  lemma NoneBelow(u: seq<int>, t: int)
    requires forall x :: x in u ==> x >= t
    ensures Below(u, t) == 0
  {
    assert u != [] ==> u[0] in u;
  }

  /** The largest of the children is the last key of the union below t. */
  lemma LargestIsBefore(keys: seq<seq<int>>, pos: seq<Cursor>, t: int, c: int)
    requires Mergeable(keys) && Behind(keys, pos, t) && Largest(keys, pos, c, 0)
    ensures Where(keys, pos, c) == Before(Union(keys), t)
    ensures c >= 0 ==> Has(keys, KeyAt(keys[c], pos[c])) && Behind(keys, pos, KeyAt(keys[c], pos[c]) + 1)
  {
    var u := Union(keys);
    if c < 0 {
      forall x | x in u ensures x >= t {
        UnionHas(keys, x);
        var i :| 0 <= i < |keys| && x in keys[i];
        if x < t { ChildAbove(keys, i, t, x); }
      }
      NoneBelow(u, t);
    } else {
      UnionSorted(keys);
      var k := KeyAt(keys[c], pos[c]);
      assert k in keys[c] && k < t;
      NoneAfter(keys, pos, t, c);
      UnionHas(keys, k);
      LastBelow(u, k, t);
      ChildrenBehind(keys, pos, k, t);
    }
  }

  lemma ChildrenBehind(keys: seq<seq<int>>, pos: seq<Cursor>, k: int, t: int)
    requires Mergeable(keys) && Behind(keys, pos, t) && k < t
    requires forall x :: x in Union(keys) ==> x < k + 1 || x >= t
    ensures Behind(keys, pos, k + 1)
  {
    forall i | 0 <= i < |keys| ensures pos[i] == Before(keys[i], k + 1) {
      forall x | x in keys[i] ensures x < k + 1 || x >= t { assert Has(keys, x); UnionHas(keys, x); }
      BelowSame(keys[i], k + 1, t);
    }
  }

  lemma NoneAfter(keys: seq<seq<int>>, pos: seq<Cursor>, t: int, c: int)
    requires Mergeable(keys) && Behind(keys, pos, t) && Largest(keys, pos, c, 0) && c >= 0
    ensures forall x :: x in Union(keys) ==> x < KeyAt(keys[c], pos[c]) + 1 || x >= t
  {
    forall x | x in Union(keys) && x < t ensures x <= KeyAt(keys[c], pos[c]) {
      UnionHas(keys, x);
      var i :| 0 <= i < |keys| && x in keys[i];
      ChildAbove(keys, i, t, x);
    }
  }
}

module MergingIterators {
  import opened Cursors
  import opened MergeCursors
  import opened MergeUnion
  import opened MergePlaces

  /** No key reaches t, and none is below b. */
  lemma {:induction false} Bounds(keys: seq<seq<int>>) returns (b: int, t: int)
    ensures forall i, x :: 0 <= i < |keys| && x in keys[i] ==> b <= x < t
  {
    if keys == [] {
      b, t := 0, 0;
    } else {
      var b', t' := Bounds(keys[1..]);
      var b0, t0 := Range(keys[0]);
      b, t := if b' < b0 then b' else b0, if t' > t0 then t' else t0;
      forall i, x | 0 <= i < |keys| && x in keys[i] ensures b <= x < t {
        assert i > 0 ==> keys[1..][i - 1] == keys[i];
      }
    }
  }

  lemma {:induction false} Range(s: seq<int>) returns (b: int, t: int)
    ensures forall x :: x in s ==> b <= x < t
  {
    if s == [] {
      b, t := 0, 0;
    } else {
      b, t := Range(s[1..]);
      b, t := if s[0] < b then s[0] else b, if s[0] >= t then s[0] + 1 else t;
      assert s == [s[0]] + s[1..];
    }
  }

  /** The ends of the children are where a bound beyond all keys would put them. */
  lemma Ends(keys: seq<seq<int>>) returns (b: int, t: int)
    ensures forall i :: 0 <= i < |keys| ==> First(keys[i]) == Seek(keys[i], b) && Last(keys[i]) == Before(keys[i], t)
    ensures First(Union(keys)) == Seek(Union(keys), b) && Last(Union(keys)) == Before(Union(keys), t)
  {
    b, t := Bounds(keys);
    forall i | 0 <= i < |keys| ensures First(keys[i]) == Seek(keys[i], b) && Last(keys[i]) == Before(keys[i], t) {
      NoneBelow(keys[i], b);
      AllBelow(keys[i], t);
    }
    forall x | x in Union(keys) ensures b <= x < t { UnionHas(keys, x); }
    NoneBelow(Union(keys), b);
    AllBelow(Union(keys), t);
  }

  /** One child steps past the current key; the others need not move. */
  lemma StepAhead(keys: seq<seq<int>>, pos: seq<Cursor>, c: nat)
    requires Mergeable(keys) && c < |keys| && |pos| == |keys| && pos[c].At? && On(keys[c], pos[c])
    requires Ahead(keys, pos, KeyAt(keys[c], pos[c]))
    ensures Ahead(keys, pos[c := Next(keys[c], pos[c])], KeyAt(keys[c], pos[c]) + 1)
  {
    var k := KeyAt(keys[c], pos[c]);
    BelowKey(keys[c], pos[c].i);
    forall i | 0 <= i < |keys| && i != c ensures pos[i] == Seek(keys[i], k + 1) { Elsewhere(keys, c, i, k); }
  }

  lemma StepBehind(keys: seq<seq<int>>, pos: seq<Cursor>, c: nat)
    requires Mergeable(keys) && c < |keys| && |pos| == |keys| && pos[c].At? && On(keys[c], pos[c])
    requires Behind(keys, pos, KeyAt(keys[c], pos[c]) + 1)
    ensures Behind(keys, pos[c := Prev(keys[c], pos[c])], KeyAt(keys[c], pos[c]))
  {
    var k := KeyAt(keys[c], pos[c]);
    BelowKey(keys[c], pos[c].i);
    forall i | 0 <= i < |keys| && i != c ensures pos[i] == Before(keys[i], k) { Elsewhere(keys, c, i, k); }
  }

  /** A key of one child is in no other. */
  lemma Elsewhere(keys: seq<seq<int>>, c: nat, i: nat, k: int)
    requires Mergeable(keys) && c < |keys| && i < |keys| && i != c && k in keys[c]
    ensures k !in keys[i] && Below(keys[i], k) == Below(keys[i], k + 1)
  {
    assert if i < c then Apart(keys[i], keys[c]) else Apart(keys[c], keys[i]);
    BelowSame(keys[i], k, k + 1);
  }

  /** The union's own step, at a key it has. */
  lemma UnionStep(keys: seq<seq<int>>, k: int)
    requires Mergeable(keys) && Has(keys, k)
    ensures Seek(Union(keys), k).At? && KeyAt(Union(keys), Seek(Union(keys), k)) == k
    ensures Next(Union(keys), Seek(Union(keys), k)) == Seek(Union(keys), k + 1)
    ensures Prev(Union(keys), Seek(Union(keys), k)) == Before(Union(keys), k)
  {
    UnionSorted(keys);
    UnionHas(keys, k);
    var u := Union(keys);
    var j :| 0 <= j < |u| && u[j] == k;
    BelowKey(u, j);
  }

  /** Where the children stand, seen from the current key. */
  ghost predicate Stands(keys: seq<seq<int>>, pos: seq<Cursor>, c: int, forward: bool) {
    && Mergeable(keys) && |pos| == |keys| && -1 <= c < |keys|
    && (c >= 0 ==> pos[c].At? && On(keys[c], pos[c]))
    && (c >= 0 ==>
      if forward then Ahead(keys, pos, KeyAt(keys[c], pos[c])) else Behind(keys, pos, KeyAt(keys[c], pos[c]) + 1))
  }

  /** What holds whether or not children share keys: once there is a current child, all are on their lists. */
  ghost predicate Placed(keys: seq<seq<int>>, pos: seq<Cursor>, c: int) {
    && AllSorted(keys) && |pos| == |keys| && -1 <= c < |keys|
    && (c >= 0 ==> pos[c].At? && forall i :: 0 <= i < |keys| ==> On(keys[i], pos[i]))
  }

  lemma Settled(keys: seq<seq<int>>, pos: seq<Cursor>, t: int, c: int)
    requires Mergeable(keys) && Ahead(keys, pos, t) && Smallest(keys, pos, c, |keys|)
    ensures Stands(keys, pos, c, true) && Where(keys, pos, c) == Seek(Union(keys), t)
  {
    SmallestIsSeek(keys, pos, t, c);
  }

  lemma SettledBack(keys: seq<seq<int>>, pos: seq<Cursor>, t: int, c: int)
    requires Mergeable(keys) && Behind(keys, pos, t) && -1 <= c && Largest(keys, pos, c, 0)
    ensures Stands(keys, pos, c, false) && Where(keys, pos, c) == Before(Union(keys), t)
  {
    LargestIsBefore(keys, pos, t, c);
  }

  lemma AtFirst(keys: seq<seq<int>>, pos: seq<Cursor>, c: int)
    requires Mergeable(keys) && |pos| == |keys| && Smallest(keys, pos, c, |keys|)
    requires forall i :: 0 <= i < |keys| ==> pos[i] == First(keys[i])
    ensures Stands(keys, pos, c, true) && Where(keys, pos, c) == First(Union(keys))
  {
    var b, _ := Ends(keys);
    Settled(keys, pos, b, c);
  }

  lemma AtLast(keys: seq<seq<int>>, pos: seq<Cursor>, c: int)
    requires Mergeable(keys) && |pos| == |keys| && -1 <= c && Largest(keys, pos, c, 0)
    requires forall i :: 0 <= i < |keys| ==> pos[i] == Last(keys[i])
    ensures Stands(keys, pos, c, false) && Where(keys, pos, c) == Last(Union(keys))
  {
    var _, t := Ends(keys);
    SettledBack(keys, pos, t, c);
  }

  lemma AtNext(keys: seq<seq<int>>, pos: seq<Cursor>, c: int, pos': seq<Cursor>, c': int)
    requires Stands(keys, pos, c, true) && c >= 0
    requires pos' == pos[c := Next(keys[c], pos[c])] && Smallest(keys, pos', c', |keys|)
    ensures Stands(keys, pos', c', true) && Where(keys, pos', c') == Next(Union(keys), Where(keys, pos, c))
  {
    var k := KeyAt(keys[c], pos[c]);
    assert k in keys[c];
    UnionStep(keys, k);
    StepAhead(keys, pos, c);
    Settled(keys, pos', k + 1, c');
  }

  lemma AtPrev(keys: seq<seq<int>>, pos: seq<Cursor>, c: int, pos': seq<Cursor>, c': int)
    requires Stands(keys, pos, c, false) && c >= 0
    requires pos' == pos[c := Prev(keys[c], pos[c])] && -1 <= c' && Largest(keys, pos', c', 0)
    ensures Stands(keys, pos', c', false) && Where(keys, pos', c') == Prev(Union(keys), Where(keys, pos, c))
  {
    var k := KeyAt(keys[c], pos[c]);
    assert k in keys[c];
    UnionStep(keys, k);
    StepBehind(keys, pos, c);
    SettledBack(keys, pos', k, c');
  }

  lemma Turned(keys: seq<seq<int>>, pos: seq<Cursor>, c: nat, k: int)
    requires Mergeable(keys) && |pos| == |keys| && c < |keys| && pos[c].At? && On(keys[c], pos[c])
    requires k == KeyAt(keys[c], pos[c])
    requires forall i :: 0 <= i < |keys| && i != c ==> pos[i] == Seek(keys[i], k + 1)
    ensures Stands(keys, pos, c, true)
  {
    BelowKey(keys[c], pos[c].i);
    forall i | 0 <= i < |keys| ensures pos[i] == Seek(keys[i], k) {
      if i != c { Elsewhere(keys, c, i, k); }
    }
  }

  lemma TurnedBack(keys: seq<seq<int>>, pos: seq<Cursor>, c: nat, k: int)
    requires Mergeable(keys) && |pos| == |keys| && c < |keys| && pos[c].At? && On(keys[c], pos[c])
    requires k == KeyAt(keys[c], pos[c])
    requires forall i :: 0 <= i < |keys| && i != c ==> pos[i] == Before(keys[i], k)
    ensures Stands(keys, pos, c, false)
  {
    BelowKey(keys[c], pos[c].i);
    forall i | 0 <= i < |keys| ensures pos[i] == Before(keys[i], k + 1) {
      if i != c { Elsewhere(keys, c, i, k); }
    }
  }

  /** Where a child lands that seeks k: on k, if it has k, and one step on or back is then past k or before it. */
  lemma Lands(s: seq<int>, k: int)
    requires Sorted(s)
    ensures var c := Seek(s, k);
      && (if c.At? then Prev(s, c) else Last(s)) == Before(s, k)
      && (if c.At? && KeyAt(s, c) == k then Next(s, c) else c) == Seek(s, k + 1)
  {
    var n := Below(s, k);
    if n < |s| && s[n] == k {
      BelowKey(s, n);
    } else {
      BelowIs(s, k + 1, n);
    }
  }

  /** What a reader sees is the union's entry at the place. */
  lemma Shows(keys: seq<seq<int>>, pos: seq<Cursor>, c: int, forward: bool)
    requires Stands(keys, pos, c, forward)
    ensures c >= 0 <==> Where(keys, pos, c).At?
    ensures c >= 0 ==> KeyAt(Union(keys), Where(keys, pos, c)) == KeyAt(keys[c], pos[c])
  {
    if c >= 0 {
      assert KeyAt(keys[c], pos[c]) in keys[c];
      UnionStep(keys, KeyAt(keys[c], pos[c]));
    }
  }

  /** What a caller may ask of an iterator. */
  datatype Call = ToFirst | ToLast | To(target: int) | Forth | Back

  function Answer(u: seq<int>, c: Cursor, call: Call): Cursor {
    match call
    case ToFirst => First(u)
    case ToLast => Last(u)
    case To(t) => Seek(u, t)
    case Forth => Next(u, c)
    case Back => Prev(u, c)
  }

  function Answers(u: seq<int>, c: Cursor, calls: seq<Call>): Cursor {
    if calls == [] then c else Answer(u, Answers(u, c, calls[..|calls| - 1]), calls[|calls| - 1])
  }

  class MergingIterator {
    const keys: seq<seq<int>>
    var pos: seq<Cursor>
    var current: int
    var forward: bool

    /** Children that share no key stand as their union does; what holds of any is said apart. */
    ghost predicate Ok()
      reads this
    {
      Placed(keys, pos, current) && (Mergeable(keys) ==> Stands(keys, pos, current, forward))
    }

    predicate Valid()
      reads this
    {
      current >= 0
    }

    function Key(): int
      requires |pos| == |keys| && current < |keys|
      reads this
    {
      if current >= 0 then KeyAt(keys[current], pos[current]) else 0
    }

    /** The place in the union that this iterator stands for. */
    ghost function Place(): Cursor
      requires Ok()
      reads this
    {
      Where(keys, pos, current)
    }

    constructor (keys: seq<seq<int>>, pos: seq<Cursor>)
      requires AllSorted(keys) && |pos| == |keys|
      ensures this.keys == keys && Ok() && Place() == Off
    {
      this.keys := keys;
      this.pos := pos;
      current := -1;
      forward := true;
    }

    method FindSmallest()
      requires |pos| == |keys|
      modifies this`current
      ensures Smallest(keys, pos, current, |keys|)
    {
      var smallest := -1;
      for i := 0 to |keys|
        invariant -1 <= smallest < i && Smallest(keys, pos, smallest, i)
        modifies {}
      {
        if pos[i].At? {
          if smallest < 0 {
            smallest := i;
          } else if KeyAt(keys[i], pos[i]) < KeyAt(keys[smallest], pos[smallest]) {
            smallest := i;
          }
        }
      }
      current := smallest;
    }

    method FindLargest()
      requires |pos| == |keys|
      modifies this`current
      ensures -1 <= current && Largest(keys, pos, current, 0)
    {
      var largest := -1;
      for i := |keys| downto 0
        invariant -1 <= largest < |keys| && Largest(keys, pos, largest, i)
        modifies {}
      {
        if pos[i].At? {
          if largest < 0 {
            largest := i;
          } else if KeyAt(keys[i], pos[i]) > KeyAt(keys[largest], pos[largest]) {
            largest := i;
          }
        }
      }
      current := largest;
    }

    method SeekToFirst()
      requires Ok()
      modifies this
      ensures Ok() && (Mergeable(keys) ==> Place() == First(Union(keys)))
    {
      for i := 0 to |keys|
        invariant |pos| == |keys| && forall j :: 0 <= j < i ==> pos[j] == First(keys[j])
      {
        pos := pos[i := First(keys[i])];
      }
      FindSmallest();
      forward := true;
      if Mergeable(keys) { AtFirst(keys, pos, current); }
    }

    method SeekToLast()
      requires Ok()
      modifies this
      ensures Ok() && (Mergeable(keys) ==> Place() == Last(Union(keys)))
    {
      for i := 0 to |keys|
        invariant |pos| == |keys| && forall j :: 0 <= j < i ==> pos[j] == Last(keys[j])
      {
        pos := pos[i := Last(keys[i])];
      }
      FindLargest();
      forward := false;
      if Mergeable(keys) { AtLast(keys, pos, current); }
    }

    method Seek(target: int)
      requires Ok()
      modifies this
      ensures Ok() && (Mergeable(keys) ==> Place() == MergeCursors.Seek(Union(keys), target))
      ensures forward && Ahead(keys, pos, target) && Smallest(keys, pos, current, |keys|)
    {
      for i := 0 to |keys|
        invariant |pos| == |keys| && forall j :: 0 <= j < i ==> pos[j] == MergeCursors.Seek(keys[j], target)
      {
        pos := pos[i := MergeCursors.Seek(keys[i], target)];
      }
      FindSmallest();
      forward := true;
      if Mergeable(keys) { Settled(keys, pos, target, current); }
    }

    /** Next, in either direction: the union's next key. */
    method Next()
      requires Ok() && Valid()
      modifies this
      ensures Ok() && (Mergeable(keys) ==> Place() == Cursors.Next(Union(keys), old(Place())))
      ensures forward && Smallest(keys, pos, current, |keys|)
      ensures old(forward) ==> pos == old(pos[current := Cursors.Next(keys[current], pos[current])])
    {
      if !forward { TurnForward(); }
      ghost var pos0, c0 := pos, current;
      pos := pos[current := Cursors.Next(keys[current], pos[current])];
      FindSmallest();
      if Mergeable(keys) { AtNext(keys, pos0, c0, pos, current); }
    }

    method TurnForward()
      requires Ok() && Valid()
      modifies this`pos, this`forward
      ensures Ok() && forward && Key() == old(Key()) && (Mergeable(keys) ==> Place() == old(Place()))
      ensures forall j :: 0 <= j < |keys| && j != current ==> pos[j] == MergeCursors.Seek(keys[j], Key() + 1)
    {
      var k := Key();
      ghost var c := pos[current];
      for i := 0 to |keys|
        invariant |pos| == |keys| && pos[current] == c
        invariant forall j :: 0 <= j < i && j != current ==> pos[j] == MergeCursors.Seek(keys[j], k + 1)
      {
        if i != current {
          Lands(keys[i], k);
          pos := pos[i := MergeCursors.Seek(keys[i], k)];
          if pos[i].At? && k == KeyAt(keys[i], pos[i]) {
            pos := pos[i := Cursors.Next(keys[i], pos[i])];
          }
        }
      }
      forward := true;
      if Mergeable(keys) { Turned(keys, pos, current, k); }
    }

    /** Prev, in either direction: the union's previous key. */
    method Prev()
      requires Ok() && Valid()
      modifies this
      ensures Ok() && (Mergeable(keys) ==> Place() == Cursors.Prev(Union(keys), old(Place())))
      ensures -1 <= current && Largest(keys, pos, current, 0)
      ensures old(forward) ==> forall i :: 0 <= i < |keys| && i != old(current) ==>
        pos[i] == Before(keys[i], old(Key()))
      ensures pos[old(current)] == old(Cursors.Prev(keys[current], pos[current]))
    {
      if forward { TurnBack(); }
      StepBack();
    }

    /** The rest of Prev: the current child steps, and the largest is current. */
    method StepBack()
      requires Ok() && Valid() && !forward
      modifies this`pos, this`current
      ensures Ok() && (Mergeable(keys) ==> Place() == Cursors.Prev(Union(keys), old(Place())))
      ensures -1 <= current && Largest(keys, pos, current, 0)
      ensures pos == old(pos[current := Cursors.Prev(keys[current], pos[current])])
    {
      ghost var pos0, c0 := pos, current;
      pos := pos[current := Cursors.Prev(keys[current], pos[current])];
      FindLargest();
      if Mergeable(keys) { AtPrev(keys, pos0, c0, pos, current); }
    }

    method TurnBack()
      requires Ok() && Valid()
      modifies this`pos, this`forward
      ensures Ok() && !forward && Key() == old(Key()) && (Mergeable(keys) ==> Place() == old(Place()))
      ensures forall j :: 0 <= j < |keys| && j != current ==> pos[j] == Before(keys[j], Key())
      ensures pos[current] == old(pos[current])
    {
      var k := Key();
      ghost var c := pos[current];
      for i := 0 to |keys|
        invariant |pos| == |keys| && pos[current] == c
        invariant forall j :: 0 <= j < i && j != current ==> pos[j] == Before(keys[j], k)
      {
        if i != current {
          Lands(keys[i], k);
          pos := pos[i := MergeCursors.Seek(keys[i], k)];
          if pos[i].At? {
            pos := pos[i := Cursors.Prev(keys[i], pos[i])];
          } else {
            pos := pos[i := Last(keys[i])];
          }
        }
      }
      forward := false;
      if Mergeable(keys) { TurnedBack(keys, pos, current, k); }
    }

    /** Any mix of calls: the merged children answer as one iterator over the union. */
    method Run(calls: seq<Call>)
      requires Ok()
      modifies this
      ensures Ok()
      ensures Mergeable(keys) ==>
        && Place() == Answers(Union(keys), old(Place()), calls)
        && Valid() == Place().At? && (Valid() ==> Key() == KeyAt(Union(keys), Place()))
    {
      for i := 0 to |calls|
        invariant Ok() && (Mergeable(keys) ==> Place() == Answers(Union(keys), old(Place()), calls[..i]))
      {
        Serve(calls[i]);
        assert calls[..i + 1][..i] == calls[..i];
      }
      assert calls[..|calls|] == calls;
      if Mergeable(keys) { Shows(keys, pos, current, forward); }
    }

    /** Next and Prev are asked only of a valid iterator. */
    method Serve(call: Call)
      requires Ok()
      modifies this
      ensures Ok() && (Mergeable(keys) ==> Place() == Answer(Union(keys), old(Place()), call))
    {
      match call
      case ToFirst => SeekToFirst();
      case ToLast => SeekToLast();
      case To(t) => Seek(t);
      case Forth => if Valid() { Next(); }
      case Back => if Valid() { Prev(); }
    }
  }

  // --------------------------------------------------------- children that share a key

  /** What a caller sees. */
  datatype Seen = Seen(valid: bool, key: int)

  function See(u: seq<int>, c: Cursor): Seen { Seen(c.At?, KeyAt(u, c)) }

  /** A list in which a cursor would see the same after each of the three calls. */
  ghost predicate Explains(u: seq<int>, k: int, sought: Seen, forth: Seen, back: Seen) {
    var c := MergeCursors.Seek(u, k);
    See(u, c) == sought && See(u, Next(u, c)) == forth && See(u, Prev(u, Next(u, c))) == back
  }

  lemma ThereAndBack(u: seq<int>, k: int, sought: Seen, forth: Seen, back: Seen)
    requires Explains(u, k, sought, forth, back) && sought.valid && forth.valid
    ensures back == sought
  {
  }

  lemma AtShared(keys: seq<seq<int>>, pos: seq<Cursor>, c: int, i: nat, k: int)
    requires AllSorted(keys) && Ahead(keys, pos, k) && Smallest(keys, pos, c, |keys|) && i < |keys| && k in keys[i]
    ensures c >= 0 && KeyAt(keys[c], pos[c]) == k
    ensures forall j :: 0 <= j < |keys| && k in keys[j] ==>
      pos[j].At? && On(keys[j], pos[j]) && KeyAt(keys[j], pos[j]) == k
  {
    forall j | 0 <= j < |keys| && k in keys[j]
      ensures pos[j].At? && On(keys[j], pos[j]) && KeyAt(keys[j], pos[j]) == k
    {
      var n :| 0 <= n < |keys[j]| && keys[j][n] == k;
      BelowKey(keys[j], n);
    }
  }

  lemma LastBefore(keys: seq<seq<int>>, pos: seq<Cursor>, c: int, k: int)
    requires Behind(keys, pos, k) && -1 <= c && Largest(keys, pos, c, 0)
    ensures c < 0 || KeyAt(keys[c], pos[c]) < k
  {
  }

  /**
    The condition of Run is exact.  Whenever two children share a key, seeking it and going
    one step forth and one back loses it, which no cursor in any list would do.
   */
  method SharedKeyIsLost(it: MergingIterator, i: nat, j: nat, k: int) returns (sought: Seen, forth: Seen, back: Seen)
    requires it.Ok() && i < j < |it.keys| && k in it.keys[i] && k in it.keys[j]
    modifies it
    ensures it.Ok()
    ensures sought == Seen(true, k) == forth && (!back.valid || back.key < k)
    ensures forall u {:trigger Explains(u, k, sought, forth, back)} :: !Explains(u, k, sought, forth, back)
  {
    it.Seek(k);
    AtShared(it.keys, it.pos, it.current, i, k);
    sought := Seen(it.Valid(), it.Key());
    ghost var pos, c := it.pos, it.current;
    it.Next();
    StillShared(it.keys, pos, c, it.pos, it.current, if c == i then j else i, k);
    forth := Seen(it.Valid(), it.Key());
    pos, c := it.pos, it.current;
    it.Prev();
    BelowKey(it.keys[c], pos[c].i);
    LastBefore(it.keys, it.pos, it.current, k);
    back := Seen(it.Valid(), it.Key());
    forall u ensures !Explains(u, k, sought, forth, back) {
      if Explains(u, k, sought, forth, back) { ThereAndBack(u, k, sought, forth, back); }
    }
  }

  /** After one child has stepped past the key, another still stands on it. */
  lemma StillShared(keys: seq<seq<int>>, pos: seq<Cursor>, c: int, pos': seq<Cursor>, c': int, i: nat, k: int)
    requires AllSorted(keys) && Ahead(keys, pos, k) && 0 <= c < |keys| && i < |keys| && i != c && k in keys[i]
    requires pos[c].At? && On(keys[c], pos[c]) && KeyAt(keys[c], pos[c]) == k
    requires pos' == pos[c := Next(keys[c], pos[c])] && Smallest(keys, pos', c', |keys|)
    ensures c' >= 0 && KeyAt(keys[c'], pos'[c']) == k
  {
    var n :| 0 <= n < |keys[i]| && keys[i][n] == k;
    BelowKey(keys[i], n);
    assert pos'[i] == pos[i] == At(n);
    BelowKey(keys[c], pos[c].i);
    assert pos'[c] == Seek(keys[c], k + 1);
  }
}

/** The bytewise comparator of src/leveldb/comparator.cc. */
module ByteOrder {
  import opened Coding

  /** Slice::compare: the first byte that differs decides, then the length. */
  function Compare(a: Bytes, b: Bytes): (r: int)
    ensures r == 0 <==> a == b
  {
    if a == [] && b == [] then 0
    else if a == [] then -1
    else if b == [] then 1
    else if a[0] != b[0] then a[0] - b[0]
    else assert a == [a[0]] + a[1..] && b == [b[0]] + b[1..]; Compare(a[1..], b[1..])
  }

  lemma {:induction false} Reversed(a: Bytes, b: Bytes)
    ensures Compare(a, b) < 0 <==> Compare(b, a) > 0
  {
    if a != [] && b != [] && a[0] == b[0] { Reversed(a[1..], b[1..]); }
  }

  lemma {:induction false} Transitive(a: Bytes, b: Bytes, c: Bytes)
    requires Compare(a, b) <= 0 && Compare(b, c) <= 0
    ensures Compare(a, c) <= 0
    ensures Compare(a, b) < 0 || Compare(b, c) < 0 ==> Compare(a, c) < 0
  {
    if a != [] && b != [] && c != [] && a[0] == b[0] == c[0] { Transitive(a[1..], b[1..], c[1..]); }
  }

  /** The first difference of two strings decides. */
  lemma {:induction false} Differ(a: Bytes, b: Bytes, d: nat)
    requires d < |a| && d < |b| && a[..d] == b[..d] && a[d] != b[d]
    ensures Compare(a, b) < 0 <==> a[d] < b[d]
  {
    if d > 0 {
      assert a[0] == a[..d][0] == b[..d][0] == b[0];
      assert a[1..][..d - 1] == a[..d][1..] == b[..d][1..] == b[1..][..d - 1];
      Differ(a[1..], b[1..], d - 1);
    }
  }

  /** The length of the longest common prefix. */
  function Common(a: Bytes, b: Bytes): (n: nat)
    ensures n <= |a| && n <= |b| && a[..n] == b[..n]
    ensures n < |a| && n < |b| ==> a[n] != b[n]
  {
    if a == [] || b == [] || a[0] != b[0] then 0 else
      var n := Common(a[1..], b[1..]);
      assert a[..n + 1] == [a[0]] + a[1..][..n] && b[..n + 1] == [b[0]] + b[1..][..n];
      n + 1
  }

  lemma {:induction false} CommonIs(a: Bytes, b: Bytes, n: nat)
    requires n <= |a| && n <= |b| && a[..n] == b[..n]
    requires n == |a| || n == |b| || a[n] != b[n]
    ensures Common(a, b) == n
  {
    if n > 0 {
      assert a[..n][0] == b[..n][0];
      assert a[..n][1..] == a[1..][..n - 1] && b[..n][1..] == b[1..][..n - 1];
      CommonIs(a[1..], b[1..], n - 1);
    }
  }

  /** Where two strings first differ, one more than the lower byte, if that is below the higher. */
  function Separator(start: Bytes, limit: Bytes): Bytes {
    var d := Common(start, limit);
    if d < |start| && d < |limit| && start[d] as int + 1 < limit[d] as int then start[..d] + [start[d] + 1] else start
  }

  /** A separator lies from start on and below limit, and is no longer than start. */
  lemma SeparatorBetween(start: Bytes, limit: Bytes)
    ensures Compare(start, Separator(start, limit)) <= 0 && |Separator(start, limit)| <= |start|
    ensures Compare(start, limit) < 0 ==> Compare(Separator(start, limit), limit) < 0
  {
    var r, d := Separator(start, limit), Common(start, limit);
    if r != start {
      assert r[..d] == start[..d];
      Differ(start, r, d);
      Differ(r, limit, d);
    }
  }

  /** A separator is cut right after the first byte that differs, exactly if the two bytes there are
      more than one apart; otherwise it is start itself. */
  lemma SeparatorIs(start: Bytes, limit: Bytes, d: nat)
    requires d <= |start| && d <= |limit| && start[..d] == limit[..d]
    requires d == |start| || d == |limit| || start[d] != limit[d]
    ensures d < |start| && d < |limit| && start[d] as int + 1 < limit[d] as int ==>
      |Separator(start, limit)| == d + 1 && Separator(start, limit) == start[..d] + [start[d] + 1]
    ensures !(d < |start| && d < |limit| && start[d] as int + 1 < limit[d] as int) ==> Separator(start, limit) == start
  {
    CommonIs(start, limit, d);
  }

  /** FindShortestSeparator. */
  method FindShortestSeparator(start: Bytes, limit: Bytes) returns (r: Bytes)
    ensures r == Separator(start, limit)
  {
    r := start;
    var minLength := if |start| <= |limit| then |start| else |limit|;
    var d := 0;
    while d < minLength && start[d] == limit[d]
      invariant d <= minLength && start[..d] == limit[..d]
    {
      assert start[..d + 1] == start[..d] + [start[d]];
      d := d + 1;
    }
    CommonIs(start, limit, d);
    if d < minLength {
      var b := start[d];
      if b < 0xff && b + 1 < limit[d] {
        r := r[d := b + 1];
        r := r[..d + 1];
        assert r == start[..d] + [b + 1];
      }
    }
  }

  /** The first byte that can be incremented, incremented and last; a run of 0xff stays. */
  function Successor(key: Bytes): Bytes {
    if key == [] then [] else if key[0] != 0xff then [key[0] + 1] else [key[0]] + Successor(key[1..])
  }

  lemma {:induction false} SuccessorAbove(key: Bytes)
    ensures Compare(key, Successor(key)) <= 0 && |Successor(key)| <= |key|
    ensures Successor(key) == key <==> forall i :: 0 <= i < |key| ==> key[i] == 0xff
  {
    if key != [] && key[0] == 0xff {
      SuccessorAbove(key[1..]);
      var r := Successor(key);
      assert r[1..] == Successor(key[1..]);
      assert key == [key[0]] + key[1..];
      forall i | 0 <= i < |key| - 1 ensures key[1..][i] == key[i + 1] { }
    }
  }

  lemma {:induction false} SuccessorAt(key: Bytes, i: nat)
    requires i <= |key| && forall j :: 0 <= j < i ==> key[j] == 0xff
    ensures Successor(key) == key[..i] + Successor(key[i..])
  {
    if i == 0 {
      assert key[i..] == key;
    } else {
      SuccessorAt(key[1..], i - 1);
      assert key[1..][i - 1..] == key[i..];
      assert key[..i] == [key[0]] + key[1..][..i - 1];
    }
  }

  /** A successor is cut right after the first byte that is not 0xff, incremented there. */
  lemma SuccessorIs(key: Bytes, d: nat)
    requires d < |key| && key[d] != 0xff && forall j :: 0 <= j < d ==> key[j] == 0xff
    ensures Successor(key) == key[..d] + [key[d] + 1]
  {
    SuccessorAt(key, d);
  }

  /** FindShortSuccessor. */
  method FindShortSuccessor(key: Bytes) returns (r: Bytes)
    ensures r == Successor(key)
  {
    r := key;
    for i := 0 to |key|
      invariant r == key && forall j :: 0 <= j < i ==> key[j] == 0xff
    {
      var b := key[i];
      if b != 0xff {
        r := r[i := b + 1];
        r := r[..i + 1];
        SuccessorAt(key, i);
        assert r == key[..i] + [b + 1];
        return;
      }
    }
    SuccessorAt(key, |key|);
  }
}

/** What a table asks of a comparator. */
module KeyOrder {
  import opened Coding
  import ByteOrder

  datatype Order = Order(cmp: (Bytes, Bytes) -> int, sep: (Bytes, Bytes) -> Bytes, succ: Bytes -> Bytes)

  predicate Less(o: Order, a: Bytes, b: Bytes) { o.cmp(a, b) < 0 }

  ghost predicate Triple(a: Bytes, b: Bytes, c: Bytes) { true }

  ghost predicate LawsAt(o: Order, a: Bytes, b: Bytes, c: Bytes) {
    && (o.cmp(a, b) < 0 <==> o.cmp(b, a) > 0)
    && (o.cmp(a, b) <= 0 && o.cmp(b, c) <= 0 ==> o.cmp(a, c) <= 0)
    && (o.cmp(a, b) < 0 && o.cmp(b, c) <= 0 ==> o.cmp(a, c) < 0)
    && (o.cmp(a, b) <= 0 && o.cmp(b, c) < 0 ==> o.cmp(a, c) < 0)
    && (o.cmp(a, b) < 0 ==> o.cmp(a, o.sep(a, b)) <= 0 && o.cmp(o.sep(a, b), b) < 0)
    && o.cmp(a, o.succ(a)) <= 0
  }

  /** A total order, a string between two keys, and a string from a key on. */
  ghost predicate Lawful(o: Order) {
    forall a, b, c {:trigger Triple(a, b, c)} :: Triple(a, b, c) ==> LawsAt(o, a, b, c)
  }

  type GoodOrder = o: Order | Lawful(o) ghost witness Order((a, b) => 0, (a, b) => a, a => a)

  function Bytewise(): Order {
    Order((a: Bytes, b: Bytes) => ByteOrder.Compare(a, b), (a: Bytes, b: Bytes) => ByteOrder.Separator(a, b),
          (a: Bytes) => ByteOrder.Successor(a))
  }

  /** The bytewise comparator is such an order. */
  lemma BytewiseIsLawful()
    ensures Lawful(Bytewise())
  {
    forall a, b, c | Triple(a, b, c) ensures LawsAt(Bytewise(), a, b, c) {
      ByteOrder.Reversed(a, b);
      if ByteOrder.Compare(a, b) <= 0 && ByteOrder.Compare(b, c) <= 0 { ByteOrder.Transitive(a, b, c); }
      ByteOrder.SeparatorBetween(a, b);
      ByteOrder.SuccessorAbove(a);
    }
  }

  lemma Chain(o: GoodOrder, a: Bytes, b: Bytes, c: Bytes)
    ensures LawsAt(o, a, b, c)
  {
    assert Triple(a, b, c);
  }

  /** Keys in strictly rising order. */
  ghost predicate RisingKeys(o: Order, keys: seq<Bytes>) {
    forall i {:trigger RisingKeyAt(o, keys, i)} :: 0 < i < |keys| ==> RisingKeyAt(o, keys, i)
  }

  ghost predicate RisingKeyAt(o: Order, keys: seq<Bytes>, i: nat)
    requires 0 < i < |keys|
  {
    Less(o, keys[i - 1], keys[i])
  }

  lemma RisingKeysAdd(o: Order, keys: seq<Bytes>, key: Bytes)
    requires RisingKeys(o, keys) && (keys != [] ==> Less(o, keys[|keys| - 1], key))
    ensures RisingKeys(o, keys + [key])
  {
    var after := keys + [key];
    forall i | 0 < i < |after| ensures RisingKeyAt(o, after, i) {
      if i < |keys| { assert RisingKeyAt(o, keys, i); }
    }
  }
}

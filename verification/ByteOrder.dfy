/** Byte strings in lexicographic order, and sorting by a byte-string key. */
module ByteOrder {
  import opened Digests

  predicate Less(a: Bytes, b: Bytes) {
    if b == [] then false
    else if a == [] then true
    else a[0] < b[0] || (a[0] == b[0] && Less(a[1..], b[1..]))
  }

  /** Lexicographic order: a proper prefix, or smaller at the first byte which differs. */
  lemma {:induction false} LessMeans(a: Bytes, b: Bytes)
    ensures Less(a, b) <==> (a <= b && a != b) || exists k: nat :: SmallerAt(a, b, k)
  {
    if a == [] || b == [] {
    } else {
      LessMeans(a[1..], b[1..]);
      assert a == [a[0]] + a[1..] && b == [b[0]] + b[1..];
      if a[0] == b[0] {
        if k: nat :| SmallerAt(a[1..], b[1..], k) {
          assert SmallerAt(a, b, k + 1);
        }
        if k: nat :| SmallerAt(a, b, k) {
          assert SmallerAt(a[1..], b[1..], k - 1);
        }
      } else {
        assert SmallerAt(a, b, 0) <==> a[0] < b[0];
      }
    }
  }

  /** The first difference is at `k`, and `a` has the smaller byte there. */
  ghost predicate SmallerAt(a: Bytes, b: Bytes, k: nat) {
    k < |a| && k < |b| && a[..k] == b[..k] && a[k] < b[k]
  }

  lemma {:induction false} LessTotal(a: Bytes, b: Bytes)
    ensures a == b || Less(a, b) || Less(b, a)
    ensures !(Less(a, b) && Less(b, a)) && !Less(a, a)
  {
    if a != [] && b != [] {
      LessTotal(a[1..], b[1..]);
      assert a == [a[0]] + a[1..] && b == [b[0]] + b[1..];
    }
    if a == [] {
    } else {
      LessTotal(a[1..], a[1..]);
    }
  }

  lemma {:induction false} LessTransitive(a: Bytes, b: Bytes, c: Bytes)
    requires Less(a, b) && Less(b, c)
    ensures Less(a, c)
  {
    if a != [] && a[0] == b[0] == c[0] {
      LessTransitive(a[1..], b[1..], c[1..]);
    }
  }

  ghost predicate Increasing(keys: seq<Bytes>) {
    forall i, j :: 0 <= i < j < |keys| ==> Less(keys[i], keys[j])
  }

  lemma HeadMember(xs: seq<Bytes>)
    ensures xs == [] || xs[0] in xs
  {
  }

  /** An increasing sequence is determined by its elements. */
  lemma {:induction false} IncreasingUnique(xs: seq<Bytes>, ys: seq<Bytes>)
    requires Increasing(xs) && Increasing(ys)
    requires forall k :: k in xs <==> k in ys
    ensures xs == ys
    decreases |xs|
  {
    if xs == [] {
      HeadMember(ys);
    } else {
      assert xs[0] in xs && xs[0] in ys;
      var i :| 0 <= i < |ys| && ys[i] == xs[0];
      assert ys[0] in ys && ys[0] in xs;
      var j :| 0 <= j < |xs| && xs[j] == ys[0];
      LessTotal(xs[0], ys[0]);
      assert i == 0 && j == 0;
      forall k ensures k in xs[1..] <==> k in ys[1..] {
        LessTotal(xs[0], k);
        HeadIsLeast(xs, k);
        HeadIsLeast(ys, k);
      }
      IncreasingUnique(xs[1..], ys[1..]);
    }
  }

  lemma HeadIsLeast(keys: seq<Bytes>, k: Bytes)
    requires Increasing(keys) && keys != []
    ensures k in keys[1..] <==> k in keys && k != keys[0]
  {
    LessTotal(k, k);
    if k in keys && k != keys[0] {
      var i :| 0 <= i < |keys| && keys[i] == k;
      assert keys[1..][i - 1] == k;
    }
  }

  // ---------------------------------------------------------------- sorting

  function Keys<T>(key: T -> Bytes, xs: seq<T>): (keys: seq<Bytes>)
    ensures |keys| == |xs|
    ensures forall i :: 0 <= i < |xs| ==> keys[i] == key(xs[i])
  {
    seq(|xs|, i requires 0 <= i < |xs| => key(xs[i]))
  }

  ghost predicate Distinct<T>(xs: seq<T>) {
    forall i, j :: 0 <= i < j < |xs| ==> xs[i] != xs[j]
  }

  function Insert<T>(key: T -> Bytes, x: T, xs: seq<T>): seq<T> {
    if xs == [] || Less(key(x), key(xs[0])) then [x] + xs
    else [xs[0]] + Insert(key, x, xs[1..])
  }

  /** `xs.sort(key=...)`. */
  function SortBy<T>(key: T -> Bytes, xs: seq<T>): seq<T> {
    if xs == [] then [] else Insert(key, xs[|xs| - 1], SortBy(key, xs[..|xs| - 1]))
  }

  lemma {:induction false} InsertElements<T(!new)>(key: T -> Bytes, x: T, xs: seq<T>)
    ensures |Insert(key, x, xs)| == |xs| + 1
    ensures forall y :: y in Insert(key, x, xs) <==> y == x || y in xs
  {
    if xs == [] || Less(key(x), key(xs[0])) {
    } else {
      InsertElements(key, x, xs[1..]);
      assert xs == [xs[0]] + xs[1..];
    }
  }

  lemma {:induction false} InsertIncreasing<T(!new)>(key: T -> Bytes, x: T, xs: seq<T>)
    requires Increasing(Keys(key, xs)) && key(x) !in Keys(key, xs)
    ensures Increasing(Keys(key, Insert(key, x, xs)))
  {
    var keys := Keys(key, xs);
    if xs == [] {
    } else if Less(key(x), key(xs[0])) {
      forall j | 0 < j < |xs| ensures Less(key(x), keys[j]) {
        LessTransitive(key(x), keys[0], keys[j]);
      }
      var out := Keys(key, [x] + xs);
      assert forall j :: 0 < j < |out| ==> out[j] == keys[j - 1];
    } else {
      var rest := Insert(key, x, xs[1..]);
      assert Keys(key, xs[1..]) == keys[1..];
      InsertIncreasing(key, x, xs[1..]);
      InsertElements(key, x, xs[1..]);
      LessTotal(key(x), keys[0]);
      assert keys[0] in keys;
      forall j | 0 <= j < |rest| ensures Less(keys[0], key(rest[j])) {
        assert rest[j] in rest;
        if rest[j] != x {
          var i :| 0 <= i < |xs[1..]| && xs[1..][i] == rest[j];
          assert key(rest[j]) == keys[i + 1];
        }
      }
      var out := Keys(key, [xs[0]] + rest);
      assert forall j :: 0 < j < |out| ==> out[j] == Keys(key, rest)[j - 1];
    }
  }

  /** Sorting keeps the elements, and orders them strictly when the keys are distinct. */
  lemma {:induction false} SortedByKey<T(!new)>(key: T -> Bytes, xs: seq<T>)
    ensures |SortBy(key, xs)| == |xs|
    ensures forall y :: y in SortBy(key, xs) <==> y in xs
    ensures Distinct(Keys(key, xs)) ==> Increasing(Keys(key, SortBy(key, xs)))
  {
    if xs == [] {
    } else {
      var init, last := xs[..|xs| - 1], xs[|xs| - 1];
      assert xs == init + [last];
      SortedByKey(key, init);
      InsertElements(key, last, SortBy(key, init));
      if Distinct(Keys(key, xs)) {
        var keys, sorted := Keys(key, xs), SortBy(key, init);
        assert Keys(key, init) == keys[..|init|];
        forall j | 0 <= j < |sorted| ensures key(sorted[j]) != key(last) {
          assert sorted[j] in sorted && sorted[j] in init;
          var i :| 0 <= i < |init| && init[i] == sorted[j];
          assert keys[i] != keys[|init|];
        }
        InsertIncreasing(key, last, sorted);
      }
    }
  }

  lemma {:induction false} InsertPermutes<T(!new)>(key: T -> Bytes, x: T, xs: seq<T>)
    ensures multiset(Insert(key, x, xs)) == multiset(xs) + multiset{x}
  {
    if xs == [] || Less(key(x), key(xs[0])) {
    } else {
      InsertPermutes(key, x, xs[1..]);
      assert xs == [xs[0]] + xs[1..];
    }
  }

  lemma {:induction false} SortPermutes<T(!new)>(key: T -> Bytes, xs: seq<T>)
    ensures multiset(SortBy(key, xs)) == multiset(xs)
  {
    if xs == [] {
    } else {
      var init, last := xs[..|xs| - 1], xs[|xs| - 1];
      assert xs == init + [last];
      SortPermutes(key, init);
      InsertPermutes(key, last, SortBy(key, init));
    }
  }

  ghost predicate Ascending<T(!new)>(key: T -> Bytes, xs: seq<T>) {
    forall i, j :: 0 <= i < j < |xs| ==> !Less(key(xs[j]), key(xs[i]))
  }

  lemma {:induction false} InsertAscends<T(!new)>(key: T -> Bytes, x: T, xs: seq<T>)
    requires Ascending(key, xs)
    ensures Ascending(key, Insert(key, x, xs))
  {
    if xs == [] {
    } else if Less(key(x), key(xs[0])) {
      forall j | 0 <= j < |xs| ensures !Less(key(xs[j]), key(x)) {
        if Less(key(xs[j]), key(x)) {
          LessTransitive(key(xs[j]), key(x), key(xs[0]));
          LessTotal(key(xs[0]), key(xs[j]));
        }
      }
    } else {
      var rest := Insert(key, x, xs[1..]);
      InsertAscends(key, x, xs[1..]);
      InsertElements(key, x, xs[1..]);
      forall j | 0 <= j < |rest| ensures !Less(key(rest[j]), key(xs[0])) {
        assert rest[j] in rest;
        if rest[j] != x {
          var i :| 0 <= i < |xs[1..]| && xs[1..][i] == rest[j];
          assert xs[i + 1] == rest[j];
        }
      }
    }
  }

  /** Sorting never leaves a greater key in front of a smaller one, duplicates or not. */
  lemma {:induction false} SortAscends<T(!new)>(key: T -> Bytes, xs: seq<T>)
    ensures Ascending(key, SortBy(key, xs))
  {
    if xs == [] {
    } else {
      SortAscends(key, xs[..|xs| - 1]);
      InsertAscends(key, xs[|xs| - 1], SortBy(key, xs[..|xs| - 1]));
    }
  }

  /** Sorting is insensitive to the order it starts from. */
  lemma SortIgnoresOrder(xs: seq<Bytes>, ys: seq<Bytes>)
    requires Distinct(xs) && Distinct(ys)
    requires forall k :: k in xs <==> k in ys
    ensures SortBy((k: Bytes) => k, xs) == SortBy((k: Bytes) => k, ys)
  {
    var id := (k: Bytes) => k;
    SortedByKey(id, xs);
    SortedByKey(id, ys);
    assert Keys(id, xs) == xs && Keys(id, ys) == ys;
    assert Keys(id, SortBy(id, xs)) == SortBy(id, xs) && Keys(id, SortBy(id, ys)) == SortBy(id, ys);
    IncreasingUnique(SortBy(id, xs), SortBy(id, ys));
  }

  ghost predicate Orders(ordered: seq<Bytes>, keys: set<Bytes>) {
    Increasing(ordered) && |ordered| == |keys| && forall k :: k in ordered <==> k in keys
  }

  /** Every finite set has exactly one increasing listing. */
  lemma OrderExists(keys: set<Bytes>) returns (ordered: seq<Bytes>)
    ensures Orders(ordered, keys)
    ensures forall other :: Orders(other, keys) ==> other == ordered
  {
    var xs := Enumerate(keys);
    var id := (k: Bytes) => k;
    SortedByKey(id, xs);
    assert Keys(id, xs) == xs;
    ordered := SortBy(id, xs);
    assert Keys(id, ordered) == ordered;
    forall other | Orders(other, keys) ensures other == ordered {
      IncreasingUnique(other, ordered);
    }
  }

  /** The elements of a set in increasing order. */
  ghost function Ordered(keys: set<Bytes>): (ordered: seq<Bytes>)
    ensures Orders(ordered, keys)
  {
    assert exists ordered :: Orders(ordered, keys) by { var listing := OrderExists(keys); }
    var ordered :| Orders(ordered, keys);
    ordered
  }

  ghost function Enumerate<T(!new)>(keys: set<T>): (xs: seq<T>)
    ensures Distinct(xs) && |xs| == |keys|
    ensures forall k :: k in xs <==> k in keys
  {
    if keys == {} then [] else
      var k :| k in keys;
      [k] + Enumerate(keys - {k})
  }
}

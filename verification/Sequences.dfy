/** Facts about sequences of sequences: concatenation, splitting at a separator, and joining. */
module Sequences {

  function Concat<T>(parts: seq<seq<T>>): seq<T> {
    if parts == [] then [] else parts[0] + Concat(parts[1..])
  }

  lemma {:induction false} ConcatAppend<T>(xs: seq<seq<T>>, ys: seq<seq<T>>)
    ensures Concat(xs + ys) == Concat(xs) + Concat(ys)
  {
    if xs == [] {
      assert xs + ys == ys;
    } else {
      var all := xs + ys;
      assert all[0] == xs[0] && all[1..] == xs[1..] + ys;
      ConcatAppend(xs[1..], ys);
      assert xs[0] + (Concat(xs[1..]) + Concat(ys)) == Concat(xs) + Concat(ys);
    }
  }

  lemma CutEqual<T>(a: seq<T>, b: seq<T>, c: seq<T>, d: seq<T>)
    requires a + b == c + d && |a| == |c|
    ensures a == c && b == d
  {
    assert a == (a + b)[..|a|] && b == (a + b)[|a|..];
    assert c == (c + d)[..|c|] && d == (c + d)[|c|..];
  }

  /** What a buffer holds after five appends. */
  lemma FiveAppends<T>(a: seq<T>, b: seq<T>, c: seq<T>, d: seq<T>, e: seq<T>)
    ensures [] + a + b + c + d + e == a + (b + (c + (d + e)))
  {
  }

  /** Equally many pieces of one width are determined by their concatenation. */
  lemma {:induction false} FixedWidthPieces<T>(xs: seq<seq<T>>, ys: seq<seq<T>>, width: nat)
    requires |xs| == |ys| && Concat(xs) == Concat(ys)
    requires forall x :: x in xs ==> |x| == width
    requires forall y :: y in ys ==> |y| == width
    ensures xs == ys
  {
    if xs == [] {
    } else {
      CutEqual(xs[0], Concat(xs[1..]), ys[0], Concat(ys[1..]));
      FixedWidthPieces(xs[1..], ys[1..], width);
    }
  }

  /** `text.split(sep)`. */
  function Split<T(==)>(text: seq<T>, sep: T): (parts: seq<seq<T>>)
    ensures |parts| > 0
    ensures forall part :: part in parts ==> sep !in part
  {
    if text == [] then [[]]
    else
      var rest := Split(text[1..], sep);
      if text[0] == sep then [[]] + rest
      else [[text[0]] + rest[0]] + rest[1..]
  }

  /** `sep.join(parts)`. */
  function Join<T>(parts: seq<seq<T>>, sep: T): seq<T> {
    if parts == [] then []
    else if |parts| == 1 then parts[0]
    else parts[0] + [sep] + Join(parts[1..], sep)
  }

  lemma {:induction false} JoinOfSplit<T>(text: seq<T>, sep: T)
    ensures Join(Split(text, sep), sep) == text
  {
    if text == [] {
    } else {
      var rest := Split(text[1..], sep);
      JoinOfSplit(text[1..], sep);
      if text[0] == sep {
        assert ([[]] + rest)[1..] == rest;
      } else {
        var parts := [[text[0]] + rest[0]] + rest[1..];
        assert parts[1..] == rest[1..];
      }
    }
  }

  lemma {:induction false} SplitWhole<T>(part: seq<T>, sep: T)
    requires sep !in part
    ensures Split(part, sep) == [part]
  {
    if part == [] {
    } else {
      SplitWhole(part[1..], sep);
      assert [part[0]] + part[1..] == part;
    }
  }

  lemma {:induction false} SplitFirst<T>(part: seq<T>, rest: seq<T>, sep: T)
    requires sep !in part
    ensures Split(part + [sep] + rest, sep) == [part] + Split(rest, sep)
  {
    var text := part + [sep] + rest;
    if part == [] {
      assert text[1..] == rest;
    } else {
      assert text[1..] == part[1..] + [sep] + rest;
      SplitFirst(part[1..], rest, sep);
      assert [part[0]] + part[1..] == part;
    }
  }

  lemma {:induction false} SplitOfJoin<T>(parts: seq<seq<T>>, sep: T)
    requires |parts| > 0
    requires forall part :: part in parts ==> sep !in part
    ensures Split(Join(parts, sep), sep) == parts
  {
    if |parts| == 1 {
      SplitWhole(parts[0], sep);
    } else {
      SplitFirst(parts[0], Join(parts[1..], sep), sep);
      SplitOfJoin(parts[1..], sep);
    }
  }

  /** Joining is injective on non-empty lists of separator-free parts. */
  lemma JoinInjective<T>(xs: seq<seq<T>>, ys: seq<seq<T>>, sep: T)
    requires |xs| > 0 && |ys| > 0
    requires forall part :: part in xs ==> sep !in part
    requires forall part :: part in ys ==> sep !in part
    requires Join(xs, sep) == Join(ys, sep)
    ensures xs == ys
  {
    SplitOfJoin(xs, sep);
    SplitOfJoin(ys, sep);
  }

  /** `s.rstrip(c)` for one character. */
  function StripRight<T(==)>(text: seq<T>, last: T): seq<T> {
    if text != [] && text[|text| - 1] == last then StripRight(text[..|text| - 1], last) else text
  }

  function Map<S, T>(f: S -> T, xs: seq<S>): (ys: seq<T>)
    ensures |ys| == |xs| && forall i :: 0 <= i < |xs| ==> ys[i] == f(xs[i])
  {
    seq(|xs|, i requires 0 <= i < |xs| => f(xs[i]))
  }

  /** All the items which the elements of a sequence stand for, in order. */
  function Flat<S, T>(f: S -> seq<T>, xs: seq<S>): seq<T> {
    if xs == [] then [] else f(xs[0]) + Flat(f, xs[1..])
  }

  lemma {:induction false} FlatConcat<S, T>(f: S -> seq<T>, xs: seq<S>, ys: seq<S>)
    ensures Flat(f, xs + ys) == Flat(f, xs) + Flat(f, ys)
  {
    if xs == [] {
      assert xs + ys == ys;
    } else {
      assert (xs + ys)[1..] == xs[1..] + ys;
      FlatConcat(f, xs[1..], ys);
    }
  }

  lemma FlatOne<S, T>(f: S -> seq<T>, x: S)
    ensures Flat(f, [x]) == f(x)
  {
    assert Flat(f, [x]) == f(x) + Flat(f, []);
  }

  lemma FlatAppend<S, T>(f: S -> seq<T>, xs: seq<S>, last: S)
    ensures Flat(f, xs + [last]) == Flat(f, xs) + f(last)
  {
    FlatConcat(f, xs, [last]);
    FlatOne(f, last);
  }

  lemma SplitAt<T>(ys: seq<T>, k: nat)
    requires k < |ys|
    ensures ys == ys[..k] + ([ys[k]] + ys[k + 1..])
    ensures multiset(ys) == multiset{ys[k]} + multiset(ys[..k] + ys[k + 1..])
  {
    assert ys == ys[..k] + [ys[k]] + ys[k + 1..];
  }

  lemma RemoveFirst<T>(xs: seq<T>, ys: seq<T>) returns (k: nat)
    requires xs != [] && multiset(xs) == multiset(ys)
    ensures k < |ys| && ys[k] == xs[0]
    ensures multiset(xs[1..]) == multiset(ys[..k] + ys[k + 1..])
  {
    assert xs[0] in multiset(ys);
    k :| 0 <= k < |ys| && ys[k] == xs[0];
    SplitAt(ys, k);
    assert xs == [xs[0]] + xs[1..];
    Cancel(xs[0], multiset(xs[1..]), multiset(ys[..k] + ys[k + 1..]));
  }

  lemma Cancel<T>(x: T, a: multiset<T>, b: multiset<T>)
    requires multiset{x} + a == multiset{x} + b
    ensures a == b
  {
    assert a == (multiset{x} + a) - multiset{x} && b == (multiset{x} + b) - multiset{x};
  }

  lemma {:induction false} FlatPermutes<S, T>(f: S -> seq<T>, xs: seq<S>, ys: seq<S>)
    requires multiset(xs) == multiset(ys)
    ensures multiset(Flat(f, xs)) == multiset(Flat(f, ys))
    decreases |xs|
  {
    if xs == [] {
      assert |multiset(ys)| == 0;
    } else {
      var k := RemoveFirst(xs, ys);
      var x, left, right := xs[0], ys[..k], ys[k + 1..];
      SplitAt(ys, k);
      FlatPermutes(f, xs[1..], left + right);
      FlatConcat(f, left, right);
      FlatConcat(f, left, [x] + right);
      assert ([x] + right)[1..] == right;
      assert Flat(f, ys) == Flat(f, left) + (f(x) + Flat(f, right));
    }
  }

  lemma {:induction false} MapIsFlat<S, T>(f: S -> T, xs: seq<S>)
    ensures Flat((x: S) => [f(x)], xs) == Map(f, xs)
  {
    if xs == [] {
    } else {
      MapIsFlat(f, xs[1..]);
      assert Map(f, xs) == [f(xs[0])] + Map(f, xs[1..]);
    }
  }

  lemma MapPermutes<S, T>(f: S -> T, xs: seq<S>, ys: seq<S>)
    requires multiset(xs) == multiset(ys)
    ensures multiset(Map(f, xs)) == multiset(Map(f, ys))
  {
    FlatPermutes((x: S) => [f(x)], xs, ys);
    MapIsFlat(f, xs);
    MapIsFlat(f, ys);
  }

  lemma SameElements<T>(xs: seq<T>, ys: seq<T>)
    requires multiset(xs) == multiset(ys)
    ensures forall x :: x in xs <==> x in ys
  {
    assert forall x :: x in xs <==> x in multiset(xs);
    assert forall x :: x in ys <==> x in multiset(ys);
  }

  lemma AnyOf<T>(xs: set<T>) returns (x: T)
    requires xs != {}
    ensures x in xs
  {
    x :| x in xs;
  }

  /** Adding one to every element keeps their number. */
  lemma {:induction false} OneUp(xs: set<int>, moved: set<int>)
    requires forall y :: y in moved <==> y - 1 in xs
    ensures |moved| == |xs|
    decreases |xs|
  {
    if xs == {} {
      NoneUp(xs, moved);
    } else {
      var x := AnyOf(xs);
      assert (x + 1) - 1 in xs;
      OneUp(xs - {x}, moved - {x + 1});
    }
  }

  lemma NoneUp(xs: set<int>, moved: set<int>)
    requires xs == {} && forall y :: y in moved <==> y - 1 in xs
    ensures moved == {}
  {
    assert forall y :: y !in moved;
  }

  /** The elements with a property, in their order. */
  function Filter<T>(p: T -> bool, xs: seq<T>): seq<T> {
    if xs == [] then []
    else Filter(p, xs[..|xs| - 1]) + if p(xs[|xs| - 1]) then [xs[|xs| - 1]] else []
  }

  /** `ys` are the elements of `xs` at the positions, which increase and are exactly those of elements with the
      property. */
  ghost predicate Picks<T(!new)>(p: T -> bool, xs: seq<T>, ys: seq<T>, positions: seq<nat>) {
    && |positions| == |ys|
    && (forall i, j :: 0 <= i < j < |positions| ==> positions[i] < positions[j])
    && (forall i :: 0 <= i < |positions| ==> positions[i] < |xs| && ys[i] == xs[positions[i]] && p(ys[i]))
    && forall k: nat :: k < |xs| && p(xs[k]) ==> k in positions
  }

  lemma PickMore<T(!new)>(p: T -> bool, xs: seq<T>, ys: seq<T>, positions: seq<nat>, last: T)
    requires Picks(p, xs, ys, positions)
    ensures p(last) ==> Picks(p, xs + [last], ys + [last], positions + [|xs|])
    ensures !p(last) ==> Picks(p, xs + [last], ys, positions)
  {
    var more := positions + [|xs|];
    forall k: nat | k < |xs| && p(xs[k]) ensures k in positions && k in more {
      var i :| 0 <= i < |positions| && positions[i] == k;
      assert more[i] == k;
    }
    assert more[|positions|] == |xs|;
  }

  /** Filtering picks in order, and everything with the property. */
  lemma {:induction false} FilterMeans<T(!new)>(p: T -> bool, xs: seq<T>) returns (positions: seq<nat>)
    ensures Picks(p, xs, Filter(p, xs), positions)
  {
    if xs == [] {
      positions := [];
    } else {
      var init, last := xs[..|xs| - 1], xs[|xs| - 1];
      positions := FilterMeans(p, init);
      assert init + [last] == xs;
      PickMore(p, init, Filter(p, init), positions, last);
      assert Filter(p, init) + [] == Filter(p, init);
      hide Picks;
      if p(last) {
        positions := positions + [|init|];
      }
    }
  }
}

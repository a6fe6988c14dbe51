/** Order, filtering and search facts about sequences, used for page-number lists and archive members. */
module Seqs {
  import opened Wrappers

  predicate StrictlyAscending(xs: seq<int>) {
    forall i, j :: 0 <= i < j < |xs| ==> xs[i] < xs[j]
  }

  predicate NoDup(xs: seq<int>) {
    forall i, j :: 0 <= i < j < |xs| ==> xs[i] != xs[j]
  }

  /** The tail of an ascending list is ascending and lies above its head. */
  lemma AscendingTail(xs: seq<int>)
    requires |xs| > 0 && StrictlyAscending(xs)
    ensures StrictlyAscending(xs[1..])
    ensures forall y :: y in xs[1..] ==> xs[0] < y
  {
    var tail := xs[1..];
    forall i, j | 0 <= i < j < |tail| ensures tail[i] < tail[j] {
      assert tail[i] == xs[i + 1] && tail[j] == xs[j + 1];
    }
    forall y | y in tail ensures xs[0] < y {
      var j :| 0 <= j < |tail| && tail[j] == y;
      assert tail[j] == xs[j + 1];
    }
  }

  /** An element below every element of an ascending list can go in front of it. */
  lemma ConsAscending(x: int, xs: seq<int>)
    requires StrictlyAscending(xs)
    requires forall y :: y in xs ==> x < y
    ensures StrictlyAscending([x] + xs)
  {
    var r := [x] + xs;
    forall i, j | 0 <= i < j < |r| ensures r[i] < r[j] {
      assert r[j] == xs[j - 1] && xs[j - 1] in xs;
      if i > 0 { assert r[i] == xs[i - 1]; }
    }
  }

  /** `xs` with every element of `s` filtered out, order kept. */
  function Without(xs: seq<int>, s: set<int>): (r: seq<int>)
    ensures forall y :: y in r <==> y in xs && y !in s
    ensures |r| <= |xs|
  {
    if |xs| == 0 then []
    else (if xs[0] in s then [] else [xs[0]]) + Without(xs[1..], s)
  }

  lemma {:induction false} WithoutAscending(xs: seq<int>, s: set<int>)
    requires StrictlyAscending(xs)
    ensures StrictlyAscending(Without(xs, s))
    decreases |xs|
  {
    if |xs| > 0 {
      AscendingTail(xs);
      WithoutAscending(xs[1..], s);
      if xs[0] !in s {
        ConsAscending(xs[0], Without(xs[1..], s));
      }
    }
  }

  lemma {:induction false} WithoutNoDup(xs: seq<int>, s: set<int>)
    requires NoDup(xs)
    ensures NoDup(Without(xs, s))
    decreases |xs|
  {
    if |xs| > 0 {
      WithoutNoDup(xs[1..], s);
      assert xs[0] !in xs[1..];
      var rest := Without(xs[1..], s);
      assert xs[0] !in rest;
    }
  }

  lemma {:induction false} WithoutWithout(xs: seq<int>, a: set<int>, b: set<int>)
    ensures Without(Without(xs, a), b) == Without(xs, a + b)
    decreases |xs|
  {
    if |xs| > 0 {
      WithoutWithout(xs[1..], a, b);
      var head := if xs[0] in a then [] else [xs[0]];
      var wa := Without(xs, a);
      assert wa == head + Without(xs[1..], a);
      WithoutConcat(head, Without(xs[1..], a), b);
      if xs[0] !in a {
        assert Without(head, b) == (if xs[0] in b then [] else [xs[0]]) + Without([], b);
      }
    }
  }

  lemma {:induction false} WithoutConcat(xs: seq<int>, ys: seq<int>, s: set<int>)
    ensures Without(xs + ys, s) == Without(xs, s) + Without(ys, s)
    decreases |xs|
  {
    if |xs| == 0 {
      assert xs + ys == ys;
    } else {
      assert (xs + ys)[1..] == xs[1..] + ys;
      WithoutConcat(xs[1..], ys, s);
    }
  }

  lemma NoDupTail(xs: seq<int>)
    requires NoDup(xs) && |xs| > 0
    ensures NoDup(xs[1..]) && xs[0] !in xs[1..]
  {
    var tail := xs[1..];
    forall i, j | 0 <= i < j < |tail| ensures tail[i] != tail[j] {
      assert tail[i] == xs[i + 1] && tail[j] == xs[j + 1];
    }
    forall j | 0 <= j < |tail| ensures tail[j] != xs[0] {
      assert tail[j] == xs[j + 1];
    }
  }

  /** Dropping position `i > 0` keeps the head and drops position `i - 1` of the tail. */
  lemma DropShift(xs: seq<int>, i: nat)
    requires 0 < i < |xs|
    ensures xs[..i] + xs[i + 1..] == [xs[0]] + (xs[1..][..i - 1] + xs[1..][i..])
  {
    assert xs[1..][..i - 1] == xs[1..i];
    assert xs[1..][i..] == xs[i + 1..];
    assert xs[..i] == [xs[0]] + xs[1..i];
  }

  /** Removing the only occurrence of `x` from a duplicate-free list is filtering it out. */
  lemma {:induction false} DropOnly(xs: seq<int>, i: nat)
    requires NoDup(xs) && i < |xs|
    ensures xs[..i] + xs[i + 1..] == Without(xs, {xs[i]})
    decreases |xs|
  {
    var tail := xs[1..];
    NoDupTail(xs);
    if i == 0 {
      WithoutNone(tail, {xs[0]});
      assert xs[..0] + xs[1..] == tail;
    } else {
      var x := xs[i];
      assert tail[i - 1] == x;
      DropOnly(tail, i - 1);
      DropShift(xs, i);
      assert xs[0] != x;
    }
  }

  lemma {:induction false} WithoutNone(xs: seq<int>, s: set<int>)
    requires forall i :: 0 <= i < |xs| ==> xs[i] !in s
    ensures Without(xs, s) == xs
    decreases |xs|
  {
    if |xs| > 0 {
      var tail := xs[1..];
      assert forall i :: 0 <= i < |tail| ==> tail[i] == xs[i + 1];
      WithoutNone(tail, s);
      assert Without(xs, s) == [xs[0]] + Without(xs[1..], s);
      assert xs == [xs[0]] + xs[1..];
    }
  }

  /** Two ascending lists with no element in common concatenate without repeats. */
  lemma DisjointConcatNoDup(a: seq<int>, b: seq<int>)
    requires StrictlyAscending(a) && StrictlyAscending(b)
    requires forall k :: k in a ==> k !in b
    ensures NoDup(a + b)
  {
    var r := a + b;
    forall i, j | 0 <= i < j < |r| ensures r[i] != r[j] {
      if j < |a| {
        assert r[i] == a[i] && r[j] == a[j];
      } else if i >= |a| {
        assert r[i] == b[i - |a|] && r[j] == b[j - |a|];
      } else {
        assert r[i] == a[i] && a[i] in a;
        assert r[j] == b[j - |a|] && b[j - |a|] in b;
      }
    }
  }

  /** The position of the last occurrence of `x` in `xs`, `None` when there is none. */
  function LastAt<T(==)>(xs: seq<T>, x: T): (r: Option<nat>)
    ensures r.None? <==> x !in xs
    ensures r.Some? ==> r.value < |xs| && xs[r.value] == x
    ensures r.Some? ==> forall j :: r.value < j < |xs| ==> xs[j] != x
    decreases |xs|
  {
    if |xs| == 0 then None
    else if xs[|xs| - 1] == x then Some(|xs| - 1)
    else
      var init := xs[..|xs| - 1];
      assert xs == init + [xs[|xs| - 1]];
      LastAt(init, x)
  }

  lemma LastAtSnoc<T>(xs: seq<T>, y: T, x: T)
    ensures LastAt(xs + [y], x) == if y == x then Some(|xs|) else LastAt(xs, x)
  {
    assert (xs + [y])[..|xs|] == xs;
  }

  lemma {:induction false} DistinctCount(xs: seq<int>)
    requires StrictlyAscending(xs)
    ensures |set x | x in xs| == |xs|
    decreases |xs|
  {
    if |xs| > 0 {
      var tail := xs[1..];
      assert StrictlyAscending(tail) by {
        forall i, j | 0 <= i < j < |tail| ensures tail[i] < tail[j] {
          assert tail[i] == xs[i + 1] && tail[j] == xs[j + 1];
        }
      }
      DistinctCount(tail);
      assert xs[0] !in tail;
      assert (set x | x in xs) == {xs[0]} + (set x | x in tail);
    }
  }

  /** Every element of `a` is smaller than every element of `b`. */
  predicate Before(a: seq<int>, b: seq<int>) {
    forall i, j :: 0 <= i < |a| && 0 <= j < |b| ==> a[i] < b[j]
  }

  /** Every element of `a` is an element of `b`. */
  predicate Within(a: seq<int>, b: seq<int>) {
    forall i :: 0 <= i < |a| ==> a[i] in b
  }

  lemma AscendingSplit(a: seq<int>, b: seq<int>)
    requires StrictlyAscending(a + b)
    ensures StrictlyAscending(a) && StrictlyAscending(b) && Before(a, b)
  {
    forall i, j | 0 <= i < j < |a| ensures a[i] < a[j] {
      assert a[i] == (a + b)[i] && a[j] == (a + b)[j];
    }
    forall i, j | 0 <= i < j < |b| ensures b[i] < b[j] {
      assert b[i] == (a + b)[|a| + i] && b[j] == (a + b)[|a| + j];
    }
    forall i, j | 0 <= i < |a| && 0 <= j < |b| ensures a[i] < b[j] {
      assert a[i] == (a + b)[i] && b[j] == (a + b)[|a| + j];
    }
  }

  /** The parts joined in order. */
  function Concat(parts: seq<seq<int>>): seq<int> {
    if |parts| == 0 then [] else Concat(parts[..|parts| - 1]) + parts[|parts| - 1]
  }

  /** When a list of parts ascends as a whole, each part ascends, every
      element of an earlier part is below every element of a later one, and
      each part lies within the whole. */
  lemma {:induction false} OrderedParts(parts: seq<seq<int>>)
    requires StrictlyAscending(Concat(parts))
    ensures forall i :: 0 <= i < |parts| ==> StrictlyAscending(parts[i])
    ensures forall i, j :: 0 <= i < j < |parts| ==> Before(parts[i], parts[j])
    ensures forall i :: 0 <= i < |parts| ==> Within(parts[i], Concat(parts))
    decreases |parts|
  {
    if |parts| > 0 {
      var n := |parts| - 1;
      var init := parts[..n];
      var before := Concat(init);
      var last := parts[n];
      AscendingSplit(before, last);
      OrderedParts(init);
      forall i | 0 <= i < n ensures Within(parts[i], Concat(parts)) {
        assert parts[i] == init[i];
        WithinGrows(parts[i], before, last);
      }
      forall i | 0 <= i < n ensures Before(parts[i], last) {
        assert parts[i] == init[i];
        BeforeWithin(parts[i], before, last);
      }
      forall i, j | 0 <= i < j < n ensures Before(parts[i], parts[j]) {
        assert parts[i] == init[i] && parts[j] == init[j];
      }
    }
  }

  lemma WithinGrows(a: seq<int>, b: seq<int>, c: seq<int>)
    requires Within(a, b)
    ensures Within(a, b + c)
  {
  }

  lemma BeforeWithin(a: seq<int>, b: seq<int>, c: seq<int>)
    requires Within(a, b) && Before(b, c)
    ensures Before(a, c)
  {
    forall i, j | 0 <= i < |a| && 0 <= j < |c| ensures a[i] < c[j] {
      var k :| 0 <= k < |b| && b[k] == a[i];
    }
  }
}

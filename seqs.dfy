/** Sequence operations that stand for the Python list idioms the Wordle engine uses:
    `str.count`/`list.count`, `filter(...)`, `list.remove` and removal over `set(...)`. */
module Seqs {

  /** Number of occurrences of `x` in `s` (Python's `str.count` of one character, `list.count`). */
  function Count<T(==)>(s: seq<T>, x: T): (n: nat)
    ensures n <= |s|
    ensures n == 0 <==> x !in s
  {
    if s == [] then 0 else (if s[0] == x then 1 else 0) + Count(s[1..], x)
  }

  /** `a` can be obtained from `b` by deleting elements: order is kept. */
  ghost predicate Subseq<T>(a: seq<T>, b: seq<T>)
    decreases |b|
  {
    a == [] || (b != [] && ((a[0] == b[0] && Subseq(a[1..], b[1..])) || Subseq(a, b[1..])))
  }

  /** No value occurs twice. */
  ghost predicate NoDup<T>(s: seq<T>)
  {
    forall i, j :: 0 <= i < j < |s| ==> s[i] != s[j]
  }

  /** Python's `filter(p, xs)`: the elements satisfying `p`, in their original order. */
  function Filter<T(!new)>(xs: seq<T>, p: T -> bool): (r: seq<T>)
    ensures |r| <= |xs|
    ensures forall x :: x in r <==> x in xs && p(x)
    ensures Subseq(r, xs)
  {
    if xs == [] then []
    else if p(xs[0]) then [xs[0]] + Filter(xs[1..], p)
    else Filter(xs[1..], p)
  }

  /** The negation of a predicate, as one term that every member can refer to. */
  function Not<T>(p: T -> bool): T -> bool
  {
    x => !p(x)
  }

  /** The position of the first occurrence of `x` in `xs`. */
  function IndexOf<T(==)>(xs: seq<T>, x: T): (i: nat)
    requires x in xs
    ensures i < |xs| && xs[i] == x && x !in xs[..i]
  {
    if xs[0] == x then 0
    else
      var j := IndexOf(xs[1..], x);
      assert xs[..j + 1] == [xs[0]] + xs[1..][..j];
      j + 1
  }

  /** Python's `list.remove(x)`: drops the first occurrence of `x` (the source never calls it
      on a missing value, which would raise ValueError). */
  function RemoveFirst<T(==,!new)>(xs: seq<T>, x: T): (r: seq<T>)
    requires x in xs
    ensures r == xs[..IndexOf(xs, x)] + xs[IndexOf(xs, x) + 1..]
    ensures |r| == |xs| - 1
    ensures forall y :: Count(r, y) == Count(xs, y) - (if y == x then 1 else 0)
  {
    if xs[0] == x then
      SpliceHead(xs);
      xs[1..]
    else
      var rest := RemoveFirst(xs[1..], x);
      SpliceCons(xs, x, rest);
      [xs[0]] + rest
  }

  lemma SpliceHead<T>(xs: seq<T>)
    requires |xs| > 0
    ensures xs[..0] + xs[1..] == xs[1..]
  {
  }

  /** Removing the first `x` after a different head element is removing it from the tail. */
  lemma SpliceCons<T>(xs: seq<T>, x: T, rest: seq<T>)
    requires x in xs && xs[0] != x && x in xs[1..]
    requires rest == xs[1..][..IndexOf(xs[1..], x)] + xs[1..][IndexOf(xs[1..], x) + 1..]
    ensures [xs[0]] + rest == xs[..IndexOf(xs, x)] + xs[IndexOf(xs, x) + 1..]
    ensures ([xs[0]] + rest)[1..] == rest
  {
    var t := xs[1..];
    var j := IndexOf(t, x);
    assert IndexOf(xs, x) == j + 1;
    var front, back := t[..j], t[j + 1..];
    assert xs[..j + 1] == [xs[0]] + front;
    assert xs[j + 2..] == back;
    assert [xs[0]] + (front + back) == ([xs[0]] + front) + back;
  }

  /** `for x in set(...): xs.remove(x)`: the first occurrence of every value of `R` that
      occurs in `xs` is dropped, later copies stay. */
  function RemoveFirsts<T(==)>(xs: seq<T>, R: set<T>): seq<T>
  {
    if xs == [] then []
    else if xs[0] in R then RemoveFirsts(xs[1..], R - {xs[0]})
    else [xs[0]] + RemoveFirsts(xs[1..], R)
  }

  /** Exactly one copy of every value of `R` that occurs in `xs` is dropped; every other copy
      stays. */
  lemma {:induction false} RemoveFirstsCount<T>(xs: seq<T>, R: set<T>)
    ensures forall y :: Count(RemoveFirsts(xs, R), y) == Count(xs, y) - (if y in R && y in xs then 1 else 0)
  {
    if xs != [] {
      var a, t := xs[0], xs[1..];
      assert forall y :: y in xs <==> y == a || y in t;
      if a in R {
        RemoveFirstsCount(t, R - {a});
      } else {
        RemoveFirstsCount(t, R);
        var r := RemoveFirsts(t, R);
        assert ([a] + r)[0] == a && ([a] + r)[1..] == r;
      }
    }
  }

  /** Removing first copies keeps the order of what stays. */
  lemma {:induction false} RemoveFirstsSubseq<T(!new)>(xs: seq<T>, R: set<T>)
    ensures Subseq(RemoveFirsts(xs, R), xs)
  {
    if xs != [] {
      var a, t := xs[0], xs[1..];
      if a in R {
        RemoveFirstsSubseq(t, R - {a});
      } else {
        RemoveFirstsSubseq(t, R);
        var r := RemoveFirsts(t, R);
        assert ([a] + r)[0] == a && ([a] + r)[1..] == r;
      }
    }
  }

  /** `xs` with its first `j` elements that fail `keep` dropped: the state of the list in the
      middle of `for w in to_remove: xs.remove(w)` when `to_remove` lists the failing elements. */
  function DropRejected<T>(xs: seq<T>, keep: T -> bool, j: nat): seq<T>
  {
    if xs == [] then []
    else if !keep(xs[0]) && j > 0 then DropRejected(xs[1..], keep, j - 1)
    else [xs[0]] + DropRejected(xs[1..], keep, j)
  }

  lemma {:induction false} SubseqReflexive<T>(a: seq<T>)
    ensures Subseq(a, a)
  {
    if a != [] {
      SubseqReflexive(a[1..]);
    }
  }

  lemma {:induction false} SubseqTransitive<T(!new)>(a: seq<T>, b: seq<T>, c: seq<T>)
    requires Subseq(a, b) && Subseq(b, c)
    ensures Subseq(a, c)
    decreases |c|
  {
    if a != [] {
      if Subseq(b, c[1..]) {
        SubseqTransitive(a, b, c[1..]);
      } else if a[0] == b[0] && Subseq(a[1..], b[1..]) {
        SubseqTransitive(a[1..], b[1..], c[1..]);
      } else {
        SubseqTransitive(a, b[1..], c[1..]);
      }
    }
  }

  lemma {:induction false} SubseqMembers<T(!new)>(a: seq<T>, b: seq<T>)
    requires Subseq(a, b)
    ensures |a| <= |b|
    ensures forall x :: x in a ==> x in b
    decreases |b|
  {
    if a != [] {
      if a[0] == b[0] && Subseq(a[1..], b[1..]) {
        SubseqMembers(a[1..], b[1..]);
        assert a == [a[0]] + a[1..] && b == [b[0]] + b[1..];
      } else {
        SubseqMembers(a, b[1..]);
        assert b == [b[0]] + b[1..];
      }
    }
  }

  lemma {:induction false} SubseqNoDup<T(!new)>(a: seq<T>, b: seq<T>)
    requires Subseq(a, b) && NoDup(b)
    ensures NoDup(a)
    decreases |b|
  {
    if a != [] {
      assert NoDup(b[1..]);
      if a[0] == b[0] && Subseq(a[1..], b[1..]) {
        SubseqNoDup(a[1..], b[1..]);
        SubseqMembers(a[1..], b[1..]);
        assert a[0] !in b[1..];
        forall i, j | 0 <= i < j < |a| ensures a[i] != a[j] {
          if i == 0 {
            assert a[j] == a[1..][j - 1];
          } else {
            assert a[i] == a[1..][i - 1] && a[j] == a[1..][j - 1];
          }
        }
      } else {
        SubseqNoDup(a, b[1..]);
      }
    }
  }

  /** A value occurs at most once in a duplicate-free sequence. */
  /** Taking one member out of a finite set shrinks it by one. */
  lemma SetRemoveOne<T>(s: set<T>, x: T)
    requires x in s
    ensures |s - {x}| == |s| - 1
  {
    assert s == (s - {x}) + {x};
  }

  /** A non-empty sequence has no duplicate exactly when its head does not recur and its tail
      has no duplicate. */
  lemma NoDupCons<T>(xs: seq<T>)
    requires xs != []
    ensures NoDup(xs) <==> xs[0] !in xs[1..] && NoDup(xs[1..])
  {
    var t := xs[1..];
    if xs[0] !in t && NoDup(t) {
      forall i, j | 0 <= i < j < |xs| ensures xs[i] != xs[j] {
        assert xs[j] == t[j - 1];
        if i > 0 {
          assert xs[i] == t[i - 1];
        }
      }
    }
    if NoDup(xs) {
      forall i, j | 0 <= i < j < |t| ensures t[i] != t[j] {
        assert t[i] == xs[i + 1] && t[j] == xs[j + 1];
      }
      forall j | 0 <= j < |t| ensures t[j] != xs[0] {
        assert t[j] == xs[j + 1];
      }
    }
  }

  lemma {:induction false} NoDupCount<T(!new)>(xs: seq<T>, x: T)
    requires NoDup(xs)
    ensures Count(xs, x) <= 1
  {
    if xs != [] {
      assert NoDup(xs[1..]);
      NoDupCount(xs[1..], x);
      if xs[0] == x {
        assert x !in xs[1..] by {
          forall j | 0 <= j < |xs[1..]| ensures xs[1..][j] != x {
            assert xs[1..][j] == xs[j + 1];
          }
        }
      }
    }
  }

  lemma {:induction false} FilterAll<T(!new)>(xs: seq<T>, p: T -> bool)
    requires forall x :: x in xs ==> p(x)
    ensures Filter(xs, p) == xs
  {
    if xs != [] {
      assert xs[0] in xs;
      FilterAll(xs[1..], p);
    }
  }

  lemma {:induction false} FilterNone<T(!new)>(xs: seq<T>, p: T -> bool)
    requires forall x :: x in xs ==> !p(x)
    ensures Filter(xs, p) == []
  {
    if xs != [] {
      assert xs[0] in xs;
      FilterNone(xs[1..], p);
    }
  }

  lemma HeadMember<T>(s: seq<T>)
    requires s != []
    ensures s[0] in s
  {
  }

  /** A sequence with no members is empty. */
  lemma NoMembersEmpty<T>(s: seq<T>)
    requires forall x :: x !in s
    ensures s == []
  {
    if s != [] {
      HeadMember(s);
    }
  }

  lemma {:induction false} FilterCongruent<T(!new)>(xs: seq<T>, p: T -> bool, q: T -> bool)
    requires forall x :: x in xs ==> p(x) == q(x)
    ensures Filter(xs, p) == Filter(xs, q)
  {
    if xs != [] {
      assert xs[0] in xs;
      FilterCongruent(xs[1..], p, q);
    }
  }

  /** Filtering by `p` and then by `q` is filtering once by their conjunction `pq`. */
  lemma {:induction false} FilterFilter<T(!new)>(xs: seq<T>, p: T -> bool, q: T -> bool, pq: T -> bool)
    requires forall x :: x in xs ==> pq(x) == (p(x) && q(x))
    ensures Filter(Filter(xs, p), q) == Filter(xs, pq)
  {
    if xs != [] {
      assert xs[0] in xs;
      FilterFilter(xs[1..], p, q, pq);
    }
  }

  lemma {:induction false} FilterAppend<T(!new)>(xs: seq<T>, x: T, p: T -> bool)
    ensures Filter(xs + [x], p) == Filter(xs, p) + (if p(x) then [x] else [])
  {
    if xs == [] {
      assert ([] + [x])[1..] == [];
    } else {
      assert (xs + [x])[1..] == xs[1..] + [x];
      FilterAppend(xs[1..], x, p);
    }
  }

  /** Filtering one more element of a prefix. */
  lemma FilterPrefix<T(!new)>(xs: seq<T>, n: nat, p: T -> bool)
    requires n < |xs|
    ensures Filter(xs[..n + 1], p) == Filter(xs[..n], p) + (if p(xs[n]) then [xs[n]] else [])
  {
    assert xs[..n + 1] == xs[..n] + [xs[n]];
    FilterAppend(xs[..n], xs[n], p);
  }

  /** Filtering keeps every copy of a kept value and no copy of a dropped one. */
  lemma {:induction false} FilterCount<T(!new)>(xs: seq<T>, p: T -> bool)
    ensures forall x :: Count(Filter(xs, p), x) == (if p(x) then Count(xs, x) else 0)
  {
    if xs != [] {
      FilterCount(xs[1..], p);
      if p(xs[0]) {
        forall x ensures Count(Filter(xs, p), x) == (if p(x) then Count(xs, x) else 0) {
          assert ([xs[0]] + Filter(xs[1..], p))[1..] == Filter(xs[1..], p);
        }
      }
    }
  }

  /** Appending one element: it is dropped exactly when it is in `R` and not already in `xs`.
      So `RemoveFirsts` drops, in order, exactly the elements `xs[i]` with `xs[i] in R` and
      `xs[i] !in xs[..i]`: the first copy of each value of `R`. */
  lemma {:induction false} RemoveFirstsAppend<T(!new)>(xs: seq<T>, x: T, R: set<T>)
    ensures RemoveFirsts(xs + [x], R) == RemoveFirsts(xs, R) + (if x in R && x !in xs then [] else [x])
  {
    if xs == [] {
      assert ([] + [x])[1..] == [];
    } else {
      var a, t := xs[0], xs[1..];
      assert (xs + [x])[0] == a && (xs + [x])[1..] == t + [x];
      assert x in xs <==> x == a || x in t;
      if a in R {
        assert RemoveFirsts(xs + [x], R) == RemoveFirsts(t + [x], R - {a});
        assert RemoveFirsts(xs, R) == RemoveFirsts(t, R - {a});
        RemoveFirstsAppend(t, x, R - {a});
        assert (x in R - {a} && x !in t) == (x in R && x !in xs);
      } else {
        assert RemoveFirsts(xs + [x], R) == [a] + RemoveFirsts(t + [x], R);
        assert RemoveFirsts(xs, R) == [a] + RemoveFirsts(t, R);
        RemoveFirstsAppend(t, x, R);
        assert (x in R && x !in t) == (x in R && x !in xs);
        var tail := if x in R && x !in xs then [] else [x];
        assert [a] + (RemoveFirsts(t, R) + tail) == ([a] + RemoveFirsts(t, R)) + tail;
      }
    }
  }

  /** `RemoveFirsts` by position: element `i` is dropped exactly when it is the first copy of
      a value of `R`. */
  lemma RemoveFirstsPrefix<T(!new)>(xs: seq<T>, i: nat, R: set<T>)
    requires i < |xs|
    ensures RemoveFirsts(xs[..i + 1], R)
      == RemoveFirsts(xs[..i], R) + (if xs[i] in R && xs[i] !in xs[..i] then [] else [xs[i]])
  {
    assert xs[..i + 1] == xs[..i] + [xs[i]];
    RemoveFirstsAppend(xs[..i], xs[i], R);
  }

  /** `list.remove` of each value of `R` in turn, in any order, removes the first copies. */
  lemma {:induction false} RemoveFirstsStep<T(!new)>(xs: seq<T>, R: set<T>, w: T)
    requires w in R && w in xs
    ensures RemoveFirsts(RemoveFirst(xs, w), R - {w}) == RemoveFirsts(xs, R)
  {
    if xs[0] != w {
      if xs[0] in R {
        assert R - {w} - {xs[0]} == R - {xs[0]} - {w};
        RemoveFirstsStep(xs[1..], R - {xs[0]}, w);
      } else {
        RemoveFirstsStep(xs[1..], R, w);
      }
    }
  }

  lemma {:induction false} RemoveFirstsNone<T(!new)>(xs: seq<T>, R: set<T>)
    requires forall x :: x in xs ==> x !in R
    ensures RemoveFirsts(xs, R) == xs
  {
    if xs != [] {
      assert xs[0] in xs;
      RemoveFirstsNone(xs[1..], R);
    }
  }

  /** On a duplicate-free sequence, removing first copies is a plain filter. */
  lemma {:induction false} RemoveFirstsNoDup<T(!new)>(xs: seq<T>, R: set<T>)
    requires NoDup(xs)
    ensures forall x :: x in RemoveFirsts(xs, R) <==> x in xs && x !in R
  {
    RemoveFirstsCount(xs, R);
    forall x ensures x in RemoveFirsts(xs, R) <==> x in xs && x !in R {
      NoDupCount(xs, x);
    }
  }

  lemma {:induction false} DropRejectedNone<T(!new)>(xs: seq<T>, keep: T -> bool)
    ensures DropRejected(xs, keep, 0) == xs
  {
    if xs != [] {
      DropRejectedNone(xs[1..], keep);
    }
  }

  /** Removing the `j`-th rejected element from the list that already lost the first `j`. */
  lemma {:induction false} DropRejectedStep<T(!new)>(xs: seq<T>, keep: T -> bool, j: nat)
    requires j < |Filter(xs, Not(keep))|
    ensures Filter(xs, Not(keep))[j] in DropRejected(xs, keep, j)
    ensures RemoveFirst(DropRejected(xs, keep, j), Filter(xs, Not(keep))[j]) == DropRejected(xs, keep, j + 1)
  {
    var x, t := xs[0], xs[1..];
    if !keep(x) {
      assert Filter(xs, Not(keep)) == [x] + Filter(t, Not(keep));
      if j > 0 {
        DropRejectedStep(t, keep, j - 1);
      } else {
        DropRejectedNone(t, keep);
        DropRejectedNone(xs, keep);
      }
    } else {
      assert Filter(xs, Not(keep)) == Filter(t, Not(keep));
      var v := Filter(t, Not(keep))[j];
      assert v in Filter(t, Not(keep));
      assert v != x;
      DropRejectedStep(t, keep, j);
    }
  }

  /** Once every rejected element is removed, what is left is the filter. */
  lemma {:induction false} DropRejectedAll<T(!new)>(xs: seq<T>, keep: T -> bool)
    ensures DropRejected(xs, keep, |Filter(xs, Not(keep))|) == Filter(xs, keep)
  {
    if xs != [] {
      DropRejectedAll(xs[1..], keep);
    }
  }
}

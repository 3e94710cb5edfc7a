/** Sequence helpers shared by the stores and editors: the list-as-set
    operations the dashboard performs on id lists (toggle, remove, dedup). */
module Seqs {

  /** No element occurs twice. */
  predicate NoDup<T(==)>(s: seq<T>) {
    forall i, j :: 0 <= i < j < |s| ==> s[i] != s[j]
  }

  /** Putting a new element in front keeps a list free of duplicates. */
  lemma ConsNoDup<T>(x: T, s: seq<T>)
    requires NoDup(s) && x !in s
    ensures NoDup([x] + s)
  {
    var r := [x] + s;
    forall i, j | 0 <= i < j < |r|
      ensures r[i] != r[j]
    {
      if i > 0 {
        assert r[i] == s[i - 1] && r[j] == s[j - 1];
      } else {
        assert r[j] == s[j - 1];
      }
    }
  }

  /** The elements of `s`, forgetting order and multiplicity. */
  function Elems<T>(s: seq<T>): set<T> {
    set x | x in s
  }

  /** `sub` arises from `s` by deleting elements, keeping the order of the rest. */
  predicate IsSubsequence<T(==)>(sub: seq<T>, s: seq<T>)
    decreases |s|
  {
    || |sub| == 0
    || (&& |s| > 0
        && ((sub[0] == s[0] && IsSubsequence(sub[1..], s[1..])) || IsSubsequence(sub, s[1..])))
  }

  /** Every sequence is a subsequence of itself. */
  lemma {:induction false} SubsequenceReflexive<T>(s: seq<T>)
    ensures IsSubsequence(s, s)
    decreases |s|
  {
    if |s| > 0 {
      SubsequenceReflexive(s[1..]);
    }
  }

  /** A subsequence only holds elements of the sequence it was taken from. */
  lemma {:induction false} SubsequenceElems<T>(sub: seq<T>, s: seq<T>)
    requires IsSubsequence(sub, s)
    ensures forall x :: x in sub ==> x in s
    decreases |s|
  {
    if |sub| > 0 {
      if sub[0] == s[0] && IsSubsequence(sub[1..], s[1..]) {
        SubsequenceElems(sub[1..], s[1..]);
        assert forall x :: x in sub ==> x == sub[0] || x in sub[1..];
      } else {
        SubsequenceElems(sub, s[1..]);
      }
    }
  }

  /** A subsequence is never longer than the sequence. */
  lemma {:induction false} SubsequenceLength<T>(sub: seq<T>, s: seq<T>)
    requires IsSubsequence(sub, s)
    ensures |sub| <= |s|
    decreases |s|
  {
    if |sub| > 0 {
      if sub[0] == s[0] && IsSubsequence(sub[1..], s[1..]) {
        SubsequenceLength(sub[1..], s[1..]);
      } else {
        SubsequenceLength(sub, s[1..]);
      }
    }
  }

  /** Elements put in front of the larger sequence can be skipped. */
  lemma {:induction false} SubsequenceExtendLeft<T>(sub: seq<T>, prefix: seq<T>, s: seq<T>)
    requires IsSubsequence(sub, s)
    ensures IsSubsequence(sub, prefix + s)
    decreases |prefix|
  {
    if |prefix| > 0 && |sub| > 0 {
      assert (prefix + s)[1..] == prefix[1..] + s;
      SubsequenceExtendLeft(sub, prefix[1..], s);
    } else if |prefix| == 0 {
      assert prefix + s == s;
    }
  }

  /** Elements put after the larger sequence can be skipped too. */
  lemma SubsequenceExtendRight<T>(sub: seq<T>, s: seq<T>, suffix: seq<T>)
    requires IsSubsequence(sub, s)
    ensures IsSubsequence(sub, s + suffix)
  {
    var e: seq<T> := [];
    SubsequenceConcat(sub, s, e, suffix);
    assert sub + e == sub;
  }

  /** Subsequences of two parts concatenate to a subsequence of the whole. */
  lemma {:induction false} SubsequenceConcat<T>(a: seq<T>, b: seq<T>, c: seq<T>, d: seq<T>)
    requires IsSubsequence(a, b) && IsSubsequence(c, d)
    ensures IsSubsequence(a + c, b + d)
    decreases |b|
  {
    if |a| == 0 {
      assert a + c == c;
      SubsequenceExtendLeft(c, b, d);
    } else {
      assert (b + d)[1..] == b[1..] + d;
      assert (a + c)[0] == a[0] && (b + d)[0] == b[0];
      if a[0] == b[0] && IsSubsequence(a[1..], b[1..]) {
        assert (a + c)[1..] == a[1..] + c;
        SubsequenceConcat(a[1..], b[1..], c, d);
      } else {
        SubsequenceConcat(a, b[1..], c, d);
      }
    }
  }

  /** `s` with every occurrence of `x` removed (a filter on `!= x`). */
  function RemoveAll<T(==,!new)>(s: seq<T>, x: T): (r: seq<T>)
    ensures forall y :: y in r <==> y in s && y != x
    ensures multiset(r) == multiset(s)[x := 0]
    ensures IsSubsequence(r, s)
    ensures x in s ==> |r| < |s|
    ensures x !in s ==> r == s
    ensures NoDup(s) ==> NoDup(r)
    decreases |s|
  {
    if |s| == 0 then []
    else
      var rest := RemoveAll(s[1..], x);
      RemoveAllStep(s, x, rest);
      if s[0] == x then rest else [s[0]] + rest
  }

  /** One step of `RemoveAll`: from the result on the tail to the result on
      the whole list. */
  lemma RemoveAllStep<T>(s: seq<T>, x: T, rest: seq<T>)
    requires |s| > 0
    requires forall y :: y in rest <==> y in s[1..] && y != x
    requires multiset(rest) == multiset(s[1..])[x := 0]
    requires IsSubsequence(rest, s[1..])
    requires x in s[1..] ==> |rest| < |s[1..]|
    requires x !in s[1..] ==> rest == s[1..]
    requires NoDup(s[1..]) ==> NoDup(rest)
    ensures var r := if s[0] == x then rest else [s[0]] + rest;
      && (forall y :: y in r <==> y in s && y != x)
      && multiset(r) == multiset(s)[x := 0]
      && IsSubsequence(r, s)
      && (x in s ==> |r| < |s|)
      && (x !in s ==> r == s)
      && (NoDup(s) ==> NoDup(r))
  {
    if s[0] == x {
      RemoveAllDropHead(s, x, rest);
    } else {
      RemoveAllKeepHead(s, x, rest);
    }
  }

  lemma RemoveAllDropHead<T>(s: seq<T>, x: T, rest: seq<T>)
    requires |s| > 0 && s[0] == x
    requires forall y :: y in rest <==> y in s[1..] && y != x
    requires multiset(rest) == multiset(s[1..])[x := 0]
    requires IsSubsequence(rest, s[1..])
    requires NoDup(s[1..]) ==> NoDup(rest)
    ensures forall y :: y in rest <==> y in s && y != x
    ensures multiset(rest) == multiset(s)[x := 0]
    ensures IsSubsequence(rest, s)
    ensures |rest| < |s|
    ensures NoDup(s) ==> NoDup(rest)
  {
    assert s == [s[0]] + s[1..];
    assert multiset(s) == multiset{x} + multiset(s[1..]);
    SubsequenceExtendLeft(rest, [s[0]], s[1..]);
    SubsequenceLength(rest, s[1..]);
  }

  lemma RemoveAllKeepHead<T>(s: seq<T>, x: T, rest: seq<T>)
    requires |s| > 0 && s[0] != x
    requires forall y :: y in rest <==> y in s[1..] && y != x
    requires multiset(rest) == multiset(s[1..])[x := 0]
    requires IsSubsequence(rest, s[1..])
    requires x in s[1..] ==> |rest| < |s[1..]|
    requires x !in s[1..] ==> rest == s[1..]
    requires NoDup(s[1..]) ==> NoDup(rest)
    ensures var r := [s[0]] + rest;
      && (forall y :: y in r <==> y in s && y != x)
      && multiset(r) == multiset(s)[x := 0]
      && IsSubsequence(r, s)
      && (x in s ==> |r| < |s|)
      && (x !in s ==> r == s)
      && (NoDup(s) ==> NoDup(r))
  {
    var r := [s[0]] + rest;
    assert s == [s[0]] + s[1..];
    assert multiset(s) == multiset{s[0]} + multiset(s[1..]);
    assert multiset(r) == multiset{s[0]} + multiset(rest);
    assert r[1..] == rest;
    assert forall y :: y in r <==> y == s[0] || y in rest;
    assert NoDup(s) ==> NoDup(s[1..]) && s[0] !in s[1..];
  }

  /** Removing a value that was just appended to a list not holding it gives the list back. */
  lemma {:induction false} RemoveAppended<T(!new)>(s: seq<T>, x: T)
    requires x !in s
    ensures RemoveAll(s + [x], x) == s
    decreases |s|
  {
    if |s| == 0 {
      assert [x][1..] == [];
    } else {
      assert (s + [x])[1..] == s[1..] + [x];
      RemoveAppended(s[1..], x);
      assert s == [s[0]] + s[1..];
    }
  }

  /** The checkbox toggle: drop every occurrence of `x` if it is present,
      otherwise append it at the end. */
  function Toggle<T(==,!new)>(s: seq<T>, x: T): (r: seq<T>)
    ensures x in r <==> x !in s
    ensures forall y :: y != x ==> (y in r <==> y in s)
    ensures x in s ==> IsSubsequence(r, s) && |r| < |s|
    ensures x in s ==> multiset(r) == multiset(s)[x := 0]
    ensures x !in s ==> r == s + [x]
    ensures NoDup(s) ==> NoDup(r)
  {
    if x in s then RemoveAll(s, x) else s + [x]
  }

  /** Toggling the same value twice restores the set of elements. */
  lemma ToggleTwiceElems<T(!new)>(s: seq<T>, x: T)
    ensures Elems(Toggle(Toggle(s, x), x)) == Elems(s)
  {
  }

  /** Toggling an absent value twice restores the list exactly, order included. */
  lemma ToggleTwiceAbsent<T(!new)>(s: seq<T>, x: T)
    requires x !in s
    ensures Toggle(Toggle(s, x), x) == s
  {
    RemoveAppended(s, x);
  }

  /** `s.filter(y => !xs.includes(y))`: drop every element that occurs in `xs`. */
  function RemoveAllOf<T(==,!new)>(s: seq<T>, xs: seq<T>): (r: seq<T>)
    ensures forall y :: y in r <==> y in s && y !in xs
    ensures forall y {:trigger multiset(r)[y]} :: multiset(r)[y] == if y in xs then 0 else multiset(s)[y]
    ensures IsSubsequence(r, s)
    ensures NoDup(s) ==> NoDup(r)
    decreases |s|
  {
    if |s| == 0 then []
    else
      var rest := RemoveAllOf(s[1..], xs);
      RemoveAllOfStep(s, xs, rest);
      if s[0] in xs then rest else [s[0]] + rest
  }

  /** One step of `RemoveAllOf`: from the result on the tail to the result on
      the whole list. */
  lemma RemoveAllOfStep<T>(s: seq<T>, xs: seq<T>, rest: seq<T>)
    requires |s| > 0
    requires forall y :: y in rest <==> y in s[1..] && y !in xs
    requires forall y :: multiset(rest)[y] == if y in xs then 0 else multiset(s[1..])[y]
    requires IsSubsequence(rest, s[1..])
    requires NoDup(s[1..]) ==> NoDup(rest)
    ensures var r := if s[0] in xs then rest else [s[0]] + rest;
      && (forall y :: y in r <==> y in s && y !in xs)
      && (forall y :: multiset(r)[y] == if y in xs then 0 else multiset(s)[y])
      && IsSubsequence(r, s)
      && (NoDup(s) ==> NoDup(r))
  {
    assert s == [s[0]] + s[1..];
    assert forall y :: y in s <==> y == s[0] || y in s[1..];
    if s[0] in xs {
      SubsequenceExtendLeft(rest, [s[0]], s[1..]);
    } else {
      assert NoDup(s) ==> NoDup(s[1..]) && s[0] !in s[1..];
    }
  }

  /** A duplicate-free list has as many elements as its set. */
  lemma {:induction false} NoDupCardinality<T>(s: seq<T>)
    requires NoDup(s)
    ensures |Elems(s)| == |s|
    decreases |s|
  {
    if |s| > 0 {
      var init := s[..|s| - 1];
      NoDupCardinality(init);
      assert s == init + [s[|s| - 1]];
      assert Elems(s) == Elems(init) + {s[|s| - 1]};
      assert s[|s| - 1] !in Elems(init);
    }
  }

  /** The first occurrence of each element, in order: the insertion order of a
      set built from `s`. */
  function Dedup<T(==,!new)>(s: seq<T>): (r: seq<T>)
    ensures NoDup(r)
    ensures forall y :: y in r <==> y in s
    ensures NoDup(s) ==> r == s
    ensures |r| <= |s|
    decreases |s|
  {
    if |s| == 0 then []
    else
      var init := s[..|s| - 1];
      var last := s[|s| - 1];
      var d := Dedup(init);
      assert s == init + [last];
      assert NoDup(s) ==> NoDup(init) && last !in init;
      if last in d then d else d + [last]
  }

  /** Removing from a list extended by one element. */
  lemma {:induction false} RemoveAllOfSnoc<T(!new)>(s: seq<T>, y: T, xs: seq<T>)
    ensures RemoveAllOf(s + [y], xs) == RemoveAllOf(s, xs) + (if y in xs then [] else [y])
    decreases |s|
  {
    if |s| == 0 {
      RemoveAllOfSingle(y, xs);
    } else {
      var h := if s[0] in xs then [] else [s[0]];
      var tail := if y in xs then [] else [y];
      RemoveAllOfHeadOfSnoc(s, y, xs);
      RemoveAllOfSnoc(s[1..], y, xs);
      assert RemoveAllOf(s, xs) == h + RemoveAllOf(s[1..], xs);
      assert h + (RemoveAllOf(s[1..], xs) + tail) == (h + RemoveAllOf(s[1..], xs)) + tail;
    }
  }

  lemma RemoveAllOfSingle<T(!new)>(y: T, xs: seq<T>)
    ensures RemoveAllOf([] + [y], xs) == RemoveAllOf([], xs) + (if y in xs then [] else [y])
  {
    assert [] + [y] == [y];
    assert [y][1..] == [];
  }

  lemma RemoveAllOfHeadOfSnoc<T(!new)>(s: seq<T>, y: T, xs: seq<T>)
    requires |s| > 0
    ensures RemoveAllOf(s + [y], xs) == (if s[0] in xs then [] else [s[0]]) + RemoveAllOf(s[1..] + [y], xs)
  {
    assert (s + [y])[0] == s[0];
    assert (s + [y])[1..] == s[1..] + [y];
  }

  /** `a` occurs in `s` somewhere before the first occurrence of `b`. */
  predicate FirstBefore<T(==)>(s: seq<T>, a: T, b: T) {
    exists k :: 0 <= k < |s| && s[k] == a && b !in s[..k]
  }

  /** `Dedup` lists the elements in the order of their first occurrence:
      an element listed earlier first occurs before one listed later. */
  lemma {:induction false} DedupOrder<T(!new)>(s: seq<T>, i: nat, j: nat)
    requires i < j < |Dedup(s)|
    ensures FirstBefore(s, Dedup(s)[i], Dedup(s)[j])
    decreases |s|
  {
    var init, last := s[..|s| - 1], s[|s| - 1];
    var d := Dedup(init);
    assert s == init + [last];
    if j < |d| {
      assert Dedup(s)[i] == d[i] && Dedup(s)[j] == d[j];
      DedupOrder(init, i, j);
      var k :| 0 <= k < |init| && init[k] == d[i] && d[j] !in init[..k];
      assert s[k] == init[k] && s[..k] == init[..k];
    } else {
      assert Dedup(s) == d + [last] && Dedup(s)[j] == last && last !in init;
      assert d[i] in init;
      var k :| 0 <= k < |init| && init[k] == d[i];
      assert s[k] == init[k] && s[..k] == init[..k];
    }
  }

  /** Deduplicating `a + b` for a duplicate-free `a` keeps `a` and then the
      elements of `b` not in `a`, each at its first occurrence. */
  lemma {:induction false} DedupAppend<T(!new)>(a: seq<T>, b: seq<T>)
    ensures NoDup(a) ==> Dedup(a + b) == a + Dedup(RemoveAllOf(b, a))
    decreases |b|
  {
    if !NoDup(a) {
    } else if |b| == 0 {
      assert a + b == a;
    } else {
      var init, y := b[..|b| - 1], b[|b| - 1];
      assert b == init + [y];
      assert a + b == (a + init) + [y];
      DedupAppend(a, init);
      DedupAppendStep(a, init, y);
    }
  }

  /** One step of `DedupAppend`: from `init` to `init + [y]`. */
  lemma DedupAppendStep<T(!new)>(a: seq<T>, init: seq<T>, y: T)
    requires Dedup(a + init) == a + Dedup(RemoveAllOf(init, a))
    ensures Dedup((a + init) + [y]) == a + Dedup(RemoveAllOf(init + [y], a))
  {
    var rest := RemoveAllOf(init, a);
    var e := Dedup(rest);
    var lhs := Dedup((a + init) + [y]);
    var rhs := Dedup(RemoveAllOf(init + [y], a));
    assert lhs == (if y in a + e then a + e else (a + e) + [y]) by {
      DedupSnoc(a + init, y);
    }
    assert rhs == (if y in a then e else if y in e then e else e + [y]) by {
      RemoveAllOfSnoc(init, y, a);
      if y in a {
        assert rest + [] == rest;
      } else {
        DedupSnoc(rest, y);
      }
    }
    SnocCases(a, e, y, lhs, rhs);
  }

  /** The case split that closes `DedupAppendStep`, on plain sequences. */
  lemma SnocCases<T>(a: seq<T>, e: seq<T>, y: T, lhs: seq<T>, rhs: seq<T>)
    requires lhs == (if y in a + e then a + e else (a + e) + [y])
    requires rhs == (if y in a then e else if y in e then e else e + [y])
    ensures lhs == a + rhs
  {
    assert y in a + e <==> y in a || y in e;
  }

  /** Deduplicating a list extended by one element. */
  lemma DedupSnoc<T(!new)>(s: seq<T>, x: T)
    ensures Dedup(s + [x]) == if x in Dedup(s) then Dedup(s) else Dedup(s) + [x]
  {
    assert (s + [x])[..|s + [x]| - 1] == s;
  }

  /** Deduplicating `a + b` keeps a duplicate-free `a` as a prefix: the new
      elements only come after it. */
  lemma {:induction false} DedupKeepsPrefix<T(!new)>(a: seq<T>, b: seq<T>)
    ensures NoDup(a) ==> |Dedup(a + b)| >= |a| && Dedup(a + b)[..|a|] == a
    decreases |b|
  {
    if !NoDup(a) {
    } else if |b| == 0 {
      assert a + b == a;
    } else {
      var b' := b[..|b| - 1];
      assert (a + b)[..|a + b| - 1] == a + b';
      DedupKeepsPrefix(a, b');
    }
  }

  /** Sum of a list of numbers (a `reduce((sum, x) => sum + x, 0)`). */
  function Sum(xs: seq<int>): int
    decreases |xs|
  {
    if |xs| == 0 then 0 else xs[0] + Sum(xs[1..])
  }

  lemma {:induction false} SumAppend(a: seq<int>, b: seq<int>)
    ensures Sum(a + b) == Sum(a) + Sum(b)
    decreases |a|
  {
    if |a| == 0 {
      assert a + b == b;
    } else {
      assert (a + b)[1..] == a[1..] + b;
      SumAppend(a[1..], b);
    }
  }

  /** A sum of naturals is a natural. */
  lemma {:induction false} SumNonNegative(xs: seq<int>)
    requires forall i :: 0 <= i < |xs| ==> xs[i] >= 0
    ensures Sum(xs) >= 0
    decreases |xs|
  {
    if |xs| > 0 {
      SumNonNegative(xs[1..]);
    }
  }

  /** Raising one entry raises the sum by the same amount. */
  lemma {:induction false} SumUpdate(xs: seq<int>, k: nat, v: int)
    requires k < |xs|
    ensures Sum(xs[k := v]) == Sum(xs) - xs[k] + v
    decreases |xs|
  {
    if k > 0 {
      assert xs[k := v][1..] == xs[1..][k - 1 := v];
      SumUpdate(xs[1..], k - 1, v);
    }
  }

  /** How many entries are true (a `filter(...).length`). */
  function CountTrue(bs: seq<bool>): (n: nat)
    ensures n <= |bs|
    ensures n == |bs| <==> forall i :: 0 <= i < |bs| ==> bs[i]
    ensures n == 0 <==> forall i :: 0 <= i < |bs| ==> !bs[i]
    decreases |bs|
  {
    if |bs| == 0 then 0 else (if bs[0] then 1 else 0) + CountTrue(bs[1..])
  }

  /** The count is the number of positions holding true. */
  lemma {:induction false} CountTrueIndices(bs: seq<bool>)
    ensures CountTrue(bs) == |set i | 0 <= i < |bs| && bs[i]|
    decreases |bs|
  {
    if |bs| > 0 {
      var init, last := bs[..|bs| - 1], bs[|bs| - 1];
      CountTrueIndices(init);
      assert bs == init + [last];
      CountTrueAppend(init, [last]);
      assert CountTrue([last]) == (if last then 1 else 0);
      var before := set i | 0 <= i < |init| && init[i];
      assert |init| !in before;
      assert (set i | 0 <= i < |bs| && bs[i]) == before + (if last then {|init|} else {});
    }
  }

  lemma {:induction false} CountTrueAppend(a: seq<bool>, b: seq<bool>)
    ensures CountTrue(a + b) == CountTrue(a) + CountTrue(b)
    decreases |a|
  {
    if |a| == 0 {
      assert a + b == b;
    } else {
      assert (a + b)[1..] == a[1..] + b;
      CountTrueAppend(a[1..], b);
    }
  }
}

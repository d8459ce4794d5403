/** The array operations the pipeline uses on lists: `filter`, `some`, and the
    "sub-list" relation that says what `filter` keeps. */
module Lists {

  /** `r` is obtained from `s` by deleting some elements, keeping the order of the rest. */
  predicate IsSublist<T(==)>(r: seq<T>, s: seq<T>)
  {
    if r == [] then true
    else if s == [] then false
    else if r[0] == s[0] then IsSublist(r[1..], s[1..])
    else IsSublist(r, s[1..])
  }

  predicate NoDuplicates<T(==)>(s: seq<T>)
  {
    forall i, j :: 0 <= i < j < |s| ==> s[i] != s[j]
  }

  /** `Array.prototype.filter`: the elements of `s` that satisfy `f`, in their order. */
  function Filter<T>(s: seq<T>, f: T -> bool): (r: seq<T>)
    ensures |r| <= |s|
    ensures forall i :: 0 <= i < |r| ==> f(r[i])
    ensures IsSublist(r, s)
  {
    if s == [] then []
    else if f(s[0]) then [s[0]] + Filter(s[1..], f)
    else Filter(s[1..], f)
  }

  /** `Filter` keeps exactly the elements of `s` that satisfy `f`. */
  lemma {:induction false} FilterMembers<T>(s: seq<T>, f: T -> bool)
    ensures forall x :: x in Filter(s, f) <==> x in s && f(x)
  {
    if s != [] {
      FilterMembers(s[1..], f);
      assert forall x :: x in s <==> x == s[0] || x in s[1..];
    }
  }


  /** Concatenation regrouped, as a lemma of its own so that the proofs that use it stay small. */
  lemma AppendAssoc<T>(a: seq<T>, b: seq<T>, c: seq<T>)
    ensures a + (b + c) == (a + b) + c
  {
  }

  /** Filtering a concatenation filters each part. */
  lemma {:induction false} FilterConcat<T>(a: seq<T>, b: seq<T>, f: T -> bool)
    ensures Filter(a + b, f) == Filter(a, f) + Filter(b, f)
  {
    if a == [] {
      assert a + b == b;
    } else {
      assert (a + b)[0] == a[0] && (a + b)[1..] == a[1..] + b;
      FilterConcat(a[1..], b, f);
    }
  }

  /** A sub-list of a list without duplicates has no duplicates. */
  lemma {:induction false} SublistNoDuplicates<T>(r: seq<T>, s: seq<T>)
    requires IsSublist(r, s) && NoDuplicates(s)
    ensures NoDuplicates(r)
    decreases |s|
  {
    if r != [] && s != [] {
      if r[0] == s[0] {
        SublistNoDuplicates(r[1..], s[1..]);
        SublistElements(r[1..], s[1..]);
        forall j | 0 < j < |r| ensures r[0] != r[j] {
          assert r[j] == r[1..][j - 1];
        }
      } else {
        SublistNoDuplicates(r, s[1..]);
      }
    }
  }

  /** A prefix of a sub-list is a sub-list. */
  lemma {:induction false} PrefixSublist<T>(p: seq<T>, r: seq<T>, s: seq<T>)
    requires IsSublist(r, s) && |p| <= |r| && p == r[..|p|]
    ensures IsSublist(p, s)
    decreases |s|
  {
    if p != [] && s != [] {
      if r[0] == s[0] {
        PrefixSublist(p[1..], r[1..], s[1..]);
      } else {
        PrefixSublist(p, r, s[1..]);
      }
    }
  }

  /** Every element of a sub-list is an element of the list. */
  lemma {:induction false} SublistElements<T>(r: seq<T>, s: seq<T>)
    requires IsSublist(r, s)
    ensures forall i :: 0 <= i < |r| ==> r[i] in s
    decreases |s|
  {
    if r != [] && s != [] {
      if r[0] == s[0] {
        SublistElements(r[1..], s[1..]);
        assert r == [r[0]] + r[1..];
      } else {
        SublistElements(r, s[1..]);
      }
    }
  }

  /** Dropping the head of a list without duplicates leaves one, and the head is not in it. */
  lemma NoDuplicatesTail<T>(s: seq<T>)
    requires NoDuplicates(s) && s != []
    ensures NoDuplicates(s[1..]) && s[0] !in s[1..]
  {
    var tail := s[1..];
    forall i, j | 0 <= i < j < |tail| ensures tail[i] != tail[j] {
      assert tail[i] == s[i + 1] && tail[j] == s[j + 1];
    }
    forall i | 0 <= i < |tail| ensures tail[i] != s[0] {
      assert tail[i] == s[i + 1];
    }
  }

  /** `Array.prototype.some`. */
  predicate Any<T>(s: seq<T>, f: T -> bool)
  {
    exists i :: 0 <= i < |s| && f(s[i])
  }

  /** Some kept element satisfies `f` exactly when some element of `s` passes the filter
      `p` and satisfies `f`. */
  lemma AnyFilter<T>(s: seq<T>, p: T -> bool, f: T -> bool)
    ensures Any(Filter(s, p), f) <==> exists k :: 0 <= k < |s| && p(s[k]) && f(s[k])
  {
    var r := Filter(s, p);
    FilterMembers(s, p);
    if Any(r, f) {
      var i :| 0 <= i < |r| && f(r[i]);
      var k :| 0 <= k < |s| && s[k] == r[i];
      assert p(s[k]) && f(s[k]);
    }
    if exists k :: 0 <= k < |s| && p(s[k]) && f(s[k]) {
      var k :| 0 <= k < |s| && p(s[k]) && f(s[k]);
      var i :| 0 <= i < |r| && r[i] == s[k];
      assert f(r[i]);
    }
  }

  /** Nothing of `s` satisfies `f`, so nothing is kept. */
  lemma {:induction false} FilterNone<T>(s: seq<T>, f: T -> bool)
    requires forall i :: 0 <= i < |s| ==> !f(s[i])
    ensures Filter(s, f) == []
  {
    if s != [] {
      FilterNone(s[1..], f);
    }
  }

  /** When only the head satisfies `f`, the filter keeps only the head. */
  lemma FilterOnlyHead<T>(s: seq<T>, f: T -> bool)
    requires s != [] && f(s[0])
    requires forall i :: 1 <= i < |s| ==> !f(s[i])
    ensures Filter(s, f) == [s[0]]
  {
    FilterNone(s[1..], f);
  }

  /** Reference definition of "the first `n` elements that satisfy `f`": walk `s`, keep a
      satisfying element while fewer than `n` are kept, stop once `n` are kept. */
  function FirstSatisfying<T>(s: seq<T>, f: T -> bool, n: nat): seq<T>
  {
    if n == 0 || s == [] then []
    else if f(s[0]) then [s[0]] + FirstSatisfying(s[1..], f, n - 1)
    else FirstSatisfying(s[1..], f, n)
  }

  /** The first `n` of `s`'s elements that satisfy `f`, as `filter(f).slice(0, n)`. */
  function FilterCut<T>(s: seq<T>, f: T -> bool, n: nat): (r: seq<T>)
    ensures |r| <= n
    ensures forall i :: 0 <= i < |r| ==> f(r[i])
    ensures IsSublist(r, s)
  {
    var m := Filter(s, f);
    var r := if |m| <= n then m else m[..n];
    PrefixSublist(r, m, s);
    r
  }

  /** Filtering everything and then cutting after `n` is the walk that stops early. */
  lemma {:induction false} FilterCutIsFirstSatisfying<T>(s: seq<T>, f: T -> bool, n: nat)
    ensures FilterCut(s, f, n) == FirstSatisfying(s, f, n)
    decreases |s|
  {
    if n == 0 {
      FilterCutNone(s, f);
    } else if s == [] {
      assert Filter(s, f) == [];
    } else if f(s[0]) {
      FilterCutIsFirstSatisfying(s[1..], f, n - 1);
      FilterCutKeep(s, f, n);
      assert FirstSatisfying(s, f, n) == [s[0]] + FirstSatisfying(s[1..], f, n - 1);
    } else {
      FilterCutIsFirstSatisfying(s[1..], f, n);
      FilterCutSkip(s, f, n);
      assert FirstSatisfying(s, f, n) == FirstSatisfying(s[1..], f, n);
    }
  }

  /** A cut after zero elements keeps nothing. */
  lemma FilterCutNone<T>(s: seq<T>, f: T -> bool)
    ensures FilterCut(s, f, 0) == []
  {
    var m := Filter(s, f);
    assert |m| <= 0 || m[..0] == [];
  }

  /** An unsatisfying head is dropped. */
  lemma FilterCutSkip<T>(s: seq<T>, f: T -> bool, n: nat)
    requires s != [] && !f(s[0])
    ensures FilterCut(s, f, n) == FilterCut(s[1..], f, n)
  {
  }

  /** A satisfying head is kept and uses up one place of the cut. */
  lemma FilterCutKeep<T>(s: seq<T>, f: T -> bool, n: nat)
    requires n > 0 && s != [] && f(s[0])
    ensures FilterCut(s, f, n) == [s[0]] + FilterCut(s[1..], f, n - 1)
  {
    var m1 := Filter(s[1..], f);
    var m := Filter(s, f);
    assert m == [s[0]] + m1;
    if |m| > n {
      assert m[..n] == [s[0]] + m1[..n - 1];
    }
  }

  /** The satisfying element at `j` sits in the filtered list right after those before it. */
  lemma FilterAt<T>(s: seq<T>, f: T -> bool, j: nat)
    requires j < |s| && f(s[j])
    ensures var b := |Filter(s[..j], f)|; b < |Filter(s, f)| && Filter(s, f)[b] == s[j]
  {
    var before := Filter(s[..j], f);
    assert s == s[..j] + s[j..];
    FilterConcat(s[..j], s[j..], f);
    assert s[j..] == [s[j]] + s[j + 1..];
    assert Filter(s[j..], f) == [s[j]] + Filter(s[j + 1..], f);
    assert Filter(s, f) == before + Filter(s[j..], f);
  }

  /** A satisfying element preceded by fewer than `n` satisfying elements survives the cut. */
  lemma FilterCutKeepsEarly<T>(s: seq<T>, f: T -> bool, n: nat, j: nat)
    requires j < |s| && f(s[j])
    requires |Filter(s[..j], f)| < n
    ensures s[j] in FilterCut(s, f, n)
  {
    FilterAt(s, f, j);
    var b := |Filter(s[..j], f)|;
    assert FilterCut(s, f, n)[b] == s[j];
  }
}

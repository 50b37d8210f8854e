/** Order-preserving selection from lists. */
module Lists {

  /** The members of `s` that satisfy `keep`, in their order. */
  function Filter<T>(s: seq<T>, keep: T -> bool): seq<T> {
    FilterTo(s, keep, |s|)
  }

  function FilterTo<T>(s: seq<T>, keep: T -> bool, k: nat): seq<T>
    requires k <= |s|
  {
    if k == 0 then [] else
      var r := FilterTo(s, keep, k - 1);
      if keep(s[k - 1]) then r + [s[k - 1]] else r
  }

  lemma {:induction false} InFilterTo<T>(s: seq<T>, keep: T -> bool, k: nat, x: T)
    requires k <= |s|
    ensures x in FilterTo(s, keep, k) <==> x in s[..k] && keep(x)
  {
    if k > 0 {
      InFilterTo(s, keep, k - 1, x);
      assert s[..k] == s[..k - 1] + [s[k - 1]];
    }
  }

  lemma InFilter<T>(s: seq<T>, keep: T -> bool, x: T)
    ensures x in Filter(s, keep) <==> x in s && keep(x)
  {
    InFilterTo(s, keep, |s|, x);
    assert s[..|s|] == s;
  }

  lemma FilterMembers<T(!new)>(s: seq<T>, keep: T -> bool)
    ensures forall x :: x in Filter(s, keep) <==> x in s && keep(x)
  {
    forall x ensures x in Filter(s, keep) <==> x in s && keep(x) {
      InFilter(s, keep, x);
    }
  }

  lemma {:induction false} FilterLength<T>(s: seq<T>, keep: T -> bool, k: nat)
    requires k <= |s|
    ensures |FilterTo(s, keep, k)| <= k
  {
    if k > 0 {
      FilterLength(s, keep, k - 1);
    }
  }

  lemma FilterShorter<T>(s: seq<T>, keep: T -> bool)
    ensures |Filter(s, keep)| <= |s|
  {
    FilterLength(s, keep, |s|);
  }

  ghost predicate NoDup<T>(s: seq<T>) {
    NoDupTo(s, |s|)
  }

  ghost predicate NoDupTo<T>(s: seq<T>, k: nat)
    requires k <= |s|
  {
    k == 0 || (s[k - 1] !in s[..k - 1] && NoDupTo(s, k - 1))
  }

  lemma {:induction false} NoDupMeansDistinct<T>(s: seq<T>, k: nat, i: nat, j: nat)
    requires k <= |s| && NoDupTo(s, k) && i < j < k
    ensures s[i] != s[j]
  {
    if j < k - 1 {
      NoDupMeansDistinct(s, k - 1, i, j);
    }
  }

  lemma {:induction false} NoDupToPrefix<T>(s: seq<T>, t: seq<T>, k: nat)
    requires k <= |s| && k <= |t| && s[..k] == t[..k]
    ensures NoDupTo(s, k) == NoDupTo(t, k)
  {
    if k > 0 {
      assert s[..k - 1] == s[..k][..k - 1] == t[..k - 1];
      assert s[k - 1] == s[..k][k - 1] == t[k - 1];
      NoDupToPrefix(s, t, k - 1);
    }
  }

  lemma NoDupAppend<T>(s: seq<T>, x: T)
    requires NoDup(s) && x !in s
    ensures NoDup(s + [x])
  {
    assert (s + [x])[..|s|] == s[..|s|] == s;
    NoDupToPrefix(s + [x], s, |s|);
  }

  function Both<T>(f: T -> bool, g: T -> bool): T -> bool {
    x => f(x) && g(x)
  }

  function InSet<T(==)>(k: set<T>): T -> bool {
    x => x in k
  }

  function Other<T(==)>(y: T): T -> bool {
    x => x != y
  }

  lemma {:induction false} FilterToPrefix<T(!new)>(s: seq<T>, t: seq<T>, keep: T -> bool, k: nat)
    requires k <= |s| && k <= |t| && s[..k] == t[..k]
    ensures FilterTo(s, keep, k) == FilterTo(t, keep, k)
  {
    if k > 0 {
      assert s[..k - 1] == s[..k][..k - 1] == t[..k - 1];
      assert s[k - 1] == s[..k][k - 1] == t[k - 1];
      FilterToPrefix(s, t, keep, k - 1);
    }
  }

  lemma FilterAppend<T(!new)>(s: seq<T>, x: T, keep: T -> bool)
    ensures Filter(s + [x], keep) == if keep(x) then Filter(s, keep) + [x] else Filter(s, keep)
  {
    FilterToPrefix(s + [x], s, keep, |s|);
  }

  lemma {:induction false} FilterNoDupTo<T(!new)>(s: seq<T>, keep: T -> bool, k: nat)
    requires k <= |s| && NoDupTo(s, k)
    ensures NoDup(FilterTo(s, keep, k))
  {
    if k > 0 {
      FilterNoDupTo(s, keep, k - 1);
      if keep(s[k - 1]) {
        InFilterTo(s, keep, k - 1, s[k - 1]);
        NoDupAppend(FilterTo(s, keep, k - 1), s[k - 1]);
      }
    }
  }

  lemma FilterNoDup<T(!new)>(s: seq<T>, keep: T -> bool)
    requires NoDup(s)
    ensures NoDup(Filter(s, keep))
  {
    FilterNoDupTo(s, keep, |s|);
  }

  lemma {:induction false} FilterCongruentTo<T(!new)>(s: seq<T>, f: T -> bool, g: T -> bool, k: nat)
    requires k <= |s| && forall x :: x in s ==> f(x) == g(x)
    ensures FilterTo(s, f, k) == FilterTo(s, g, k)
  {
    if k > 0 {
      assert s[k - 1] in s;
      FilterCongruentTo(s, f, g, k - 1);
    }
  }

  lemma FilterCongruent<T(!new)>(s: seq<T>, f: T -> bool, g: T -> bool)
    requires forall x :: x in s ==> f(x) == g(x)
    ensures Filter(s, f) == Filter(s, g)
  {
    FilterCongruentTo(s, f, g, |s|);
  }

  lemma {:induction false} FilterAllTo<T(!new)>(s: seq<T>, f: T -> bool, k: nat)
    requires k <= |s| && forall x :: x in s ==> f(x)
    ensures FilterTo(s, f, k) == s[..k]
  {
    if k > 0 {
      assert s[k - 1] in s;
      FilterAllTo(s, f, k - 1);
    }
  }

  lemma FilterAll<T(!new)>(s: seq<T>, f: T -> bool)
    requires forall x :: x in s ==> f(x)
    ensures Filter(s, f) == s
  {
    FilterAllTo(s, f, |s|);
    assert s[..|s|] == s;
  }

  lemma {:induction false} FilterFilterTo<T(!new)>(s: seq<T>, f: T -> bool, g: T -> bool, k: nat)
    requires k <= |s|
    ensures Filter(FilterTo(s, f, k), g) == FilterTo(s, Both(f, g), k)
  {
    if k > 0 {
      FilterFilterTo(s, f, g, k - 1);
      if f(s[k - 1]) {
        FilterAppend(FilterTo(s, f, k - 1), s[k - 1], g);
      }
    }
  }

  lemma FilterFilter<T(!new)>(s: seq<T>, f: T -> bool, g: T -> bool)
    ensures Filter(Filter(s, f), g) == Filter(s, Both(f, g))
  {
    FilterFilterTo(s, f, g, |s|);
  }

  lemma FilterCommute<T(!new)>(s: seq<T>, f: T -> bool, g: T -> bool)
    ensures Filter(Filter(s, f), g) == Filter(Filter(s, g), f)
  {
    FilterFilter(s, f, g);
    FilterFilter(s, g, f);
    FilterCongruent(s, Both(f, g), Both(g, f));
  }

  lemma {:induction false} FilterOutTo<T(!new)>(s: seq<T>, x: T, k: nat)
    requires k <= |s| && NoDupTo(s, k)
    ensures |FilterTo(s, Other(x), k)| == if x in s[..k] then k - 1 else k
  {
    if k > 0 {
      FilterOutTo(s, x, k - 1);
      assert s[..k] == s[..k - 1] + [s[k - 1]];
    }
  }

  /** Leaving one member out makes a list one shorter. */
  lemma FilterOut<T(!new)>(s: seq<T>, x: T)
    requires NoDup(s) && x in s
    ensures |Filter(s, Other(x))| == |s| - 1
  {
    FilterOutTo(s, x, |s|);
    assert s[..|s|] == s;
  }
}

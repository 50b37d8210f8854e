/** What the replay window does over whole delivery sequences. */
module WindowRuns {
  import opened ReplayWindow

  /** The window after `order` was offered to it, counter by counter. */
  function After(s: WindowState, order: seq<int>): WindowState
    decreases |order|
  {
    if order == [] then s else After(s, order[..|order| - 1]).Accept(order[|order| - 1])
  }

  /** Whether the i-th delivery of `order` is accepted. */
  predicate Verdict(s: WindowState, order: seq<int>, i: nat)
    requires i < |order|
  {
    After(s, order[..i]).WouldAccept(order[i])
  }

  lemma PrefixStep(s: WindowState, order: seq<int>, i: nat)
    requires i < |order|
    ensures After(s, order[..i + 1]) == After(s, order[..i]).Accept(order[i])
  {
    assert order[..i + 1][..i] == order[..i];
  }

  /** After any run the window remembers exactly the counters whose delivery was accepted. */
  lemma {:induction false} RemembersExactly(s: WindowState, order: seq<int>, k: nat)
    requires k <= |order|
    ensures After(s, order[..k]).accepted == s.accepted + set i | 0 <= i < k && Verdict(s, order, i) :: order[i]
    ensures After(s, order[..k]).size == s.size && After(s, order[..k]).highest >= s.highest
    ensures s.Sound() ==> After(s, order[..k]).Sound()
  {
    if k > 0 {
      RemembersExactly(s, order, k - 1);
      PrefixStep(s, order, k - 1);
    } else {
      assert order[..k] == [];
    }
  }

  /** No counter is accepted twice, whatever is delivered in between. */
  lemma NeverTwice(s: WindowState, order: seq<int>, i: nat, j: nat)
    requires i < j < |order|
    requires Verdict(s, order, i) && Verdict(s, order, j)
    ensures order[i] != order[j]
  {
    RemembersExactly(s, order, j);
    assert order[i] in set m | 0 <= m < j && Verdict(s, order, m) :: order[m];
  }

  /** The largest counter accepted among the first `k` deliveries, and zero before any was. */
  ghost predicate Largest(size: int, order: seq<int>, k: nat, h: int)
    requires k <= |order|
  {
    && (h == 0 || exists j :: 0 <= j < k && Verdict(Fresh(size), order, j) && order[j] == h)
    && h >= 0 && forall j :: 0 <= j < k && Verdict(Fresh(size), order, j) ==> order[j] <= h
  }

  lemma {:induction false} HighestIsLargest(size: int, order: seq<int>, k: nat)
    requires size > 0 && k <= |order|
    ensures Largest(size, order, k, After(Fresh(size), order[..k]).highest)
  {
    if k > 0 {
      HighestIsLargest(size, order, k - 1);
      PrefixStep(Fresh(size), order, k - 1);
    } else {
      assert order[..k] == [];
    }
  }

  /** A delivery is accepted exactly when its counter is positive, within one window of the largest accepted so far
      on either side, and none of the deliveries accepted so far carried it. */
  lemma AcceptedExactly(size: int, order: seq<int>, i: nat, h: int)
    requires size > 0 && i < |order| && Largest(size, order, i, h)
    ensures Verdict(Fresh(size), order, i)
       <==> && order[i] >= 1 && h - size < order[i] <= h + size
            && forall j :: 0 <= j < i && Verdict(Fresh(size), order, j) ==> order[j] != order[i]
  {
    HighestIsLargest(size, order, i);
    RemembersExactly(Fresh(size), order, i);
    assert After(Fresh(size), order[..i]).highest == h;
  }

  /** `order` delivers each of the counters 1..n exactly once. */
  ghost predicate DeliversEachOnce(order: seq<int>) {
    && (forall i :: 0 <= i < |order| ==> 1 <= order[i] <= |order|)
    && (forall i, j :: 0 <= i < j < |order| ==> order[i] != order[j])
  }

  /** No counter arrives more than `d` places from where it was sent. */
  ghost predicate DisplacedAtMost(order: seq<int>, d: int) {
    forall i :: 0 <= i < |order| ==> -d <= order[i] - (i + 1) <= d
  }

  ghost predicate AllAccepted(size: int, order: seq<int>) {
    forall i :: 0 <= i < |order| ==> Verdict(Fresh(size), order, i)
  }

  /** Pigeonhole: a set of counters inside 1..h has at most h members. */
  lemma {:induction false} AtMost(s: set<int>, h: nat)
    requires forall c :: c in s ==> 1 <= c <= h
    ensures |s| <= h
  {
    if h == 0 {
      assert forall c :: c !in s;
      assert s == {};
    } else {
      AtMost(s - {h}, h - 1);
      assert s <= (s - {h}) + {h};
      assert h in s ==> |s| == |s - {h}| + 1;
      assert h !in s ==> s - {h} == s;
    }
  }

  function Members(s: seq<int>): (r: set<int>) {
    set i | 0 <= i < |s| :: s[i]
  }

  lemma {:induction false} DistinctCount(s: seq<int>)
    requires forall i, j :: 0 <= i < j < |s| ==> s[i] != s[j]
    ensures |Members(s)| == |s|
  {
    if s != [] {
      var n := |s| - 1;
      DistinctCount(s[..n]);
      forall i | 0 <= i < n ensures s[i] in Members(s[..n]) {
        assert s[..n][i] == s[i];
      }
      assert Members(s) == Members(s[..n]) + {s[n]};
    }
  }

  lemma MembersGrow(order: seq<int>, k: nat)
    requires k < |order|
    ensures Members(order[..k + 1]) == Members(order[..k]) + {order[k]}
  {
    forall i | 0 <= i < k ensures order[i] in Members(order[..k]) {
      assert order[..k][i] == order[i];
    }
    assert order[..k + 1] == order[..k] + [order[k]];
  }

  /** What a fully accepted prefix leaves behind: `k` deliveries push the highest counter to at
      least `k` (pigeonhole) and, with displacement `d`, to at most `k + d`. */
  ghost predicate CaughtUp(s: WindowState, size: int, order: seq<int>, d: nat, k: nat)
    requires k <= |order|
  {
    && s.Sound() && s.size == size && s.accepted == Members(order[..k])
    && k <= s.highest && (k > 0 ==> s.highest <= k + d) && (k == 0 ==> s.highest == 0)
  }

  lemma CaughtUpStep(s: WindowState, size: int, order: seq<int>, d: nat, k: nat)
    requires size > 0 && 2 * d <= size && k < |order|
    requires DeliversEachOnce(order) && DisplacedAtMost(order, d)
    requires CaughtUp(s, size, order, d, k)
    ensures s.WouldAccept(order[k]) && CaughtUp(s.Accept(order[k]), size, order, d, k + 1)
  {
    assert order[k] !in Members(order[..k]);
    MembersGrow(order, k);
    var next := s.Accept(order[k]);
    DistinctCount(order[..k + 1]);
    AtMost(Members(order[..k + 1]), next.highest);
  }

  /** While displacement stays within half the window, every prefix is accepted whole. */
  lemma {:induction false} PrefixAccepted(size: int, order: seq<int>, d: nat, k: nat)
    requires size > 0 && 2 * d <= size && k <= |order|
    requires DeliversEachOnce(order) && DisplacedAtMost(order, d)
    ensures CaughtUp(After(Fresh(size), order[..k]), size, order, d, k)
  {
    if k > 0 {
      PrefixAccepted(size, order, d, k - 1);
      var s := After(Fresh(size), order[..k - 1]);
      CaughtUpStep(s, size, order, d, k - 1);
      assert After(Fresh(size), order[..k]) == s.Accept(order[k - 1]) by { PrefixStep(Fresh(size), order, k - 1); }
    } else {
      assert order[..k] == [];
    }
  }

  /** A delivery order that displaces no counter by more than `d`: the first counter arrives `d`
      late, just after the last one arrived `d` early. */
  function LateFirst(d: nat): seq<int>
    requires d >= 1
  {
    seq(2 * d, i => if i < d - 1 then i + 2 else if i == d - 1 then 2 * d else if i == d then 1 else i)
  }

  lemma LateFirstIsLost(size: int, d: nat)
    requires size > 0 && 2 * d > size
    ensures DeliversEachOnce(LateFirst(d)) && DisplacedAtMost(LateFirst(d), d)
    ensures !AllAccepted(size, LateFirst(d))
  {
    var order := LateFirst(d);
    if Verdict(Fresh(size), order, d - 1) {
      RemembersExactly(Fresh(size), order, d);
      assert order[d - 1] == 2 * d;
      assert 2 * d in After(Fresh(size), order[..d]).accepted;
      assert order[d] == 1;
      assert !Verdict(Fresh(size), order, d);
    }
  }

  /** Reordering loses nothing exactly up to a displacement of half the window. */
  lemma ReorderingTolerance(size: int, d: nat)
    requires size > 0
    ensures (forall order :: DeliversEachOnce(order) && DisplacedAtMost(order, d) ==> AllAccepted(size, order))
            <==> 2 * d <= size
  {
    if 2 * d <= size {
      forall order | DeliversEachOnce(order) && DisplacedAtMost(order, d) ensures AllAccepted(size, order) {
        forall i | 0 <= i < |order| ensures Verdict(Fresh(size), order, i) {
          PrefixAccepted(size, order, d, i);
          CaughtUpStep(After(Fresh(size), order[..i]), size, order, d, i);
        }
      }
    } else {
      LateFirstIsLost(size, d);
    }
  }
}

/** Exactly when the two handshake limiters refuse. */
module Admission {
  import opened Lists
  import opened RateLimits

  // ----- the token bucket -----

  /** The bucket after the first `k` calls. */
  function StateAt(b: Bucket, calls: seq<Call>, k: nat): Bucket
    requires k <= |calls|
  {
    if k == 0 then b else After(StateAt(b, calls, k - 1), calls[k - 1])
  }

  /** Call `i` asks, and is let through. */
  predicate LetThrough(b: Bucket, calls: seq<Call>, i: nat)
    requires i < |calls|
  {
    calls[i].Ask? && Allow(StateAt(b, calls, i), calls[i].time).1
  }

  /** How many of the calls `j` to `k` are let through. */
  function Count(b: Bucket, calls: seq<Call>, j: nat, k: nat): nat
    requires j <= k <= |calls|
  {
    if j == k then 0 else Count(b, calls, j, k - 1) + (if LetThrough(b, calls, k - 1) then 1 else 0)
  }

  lemma {:induction false} StateOk(b: Bucket, calls: seq<Call>, k: nat)
    requires BucketOk(b) && Monotone(b.last, calls) && k <= |calls|
    ensures var s := StateAt(b, calls, k);
            && BucketOk(s) && s.rate == b.rate && s.burst == b.burst
            && s.last == (if k == 0 then b.last else calls[k - 1].time)
            && b.last <= s.last && (k < |calls| ==> s.last <= calls[k].time)
  {
    if k > 0 {
      StateOk(b, calls, k - 1);
      TokensInRange(StateAt(b, calls, k - 1), calls[k - 1]);
    }
  }

  // The bucket in the abstract: each call comes when so much has accrued in all, and takes so much.

  datatype Move = Move(accrued: real, taken: real)

  /** The tokens when `accrued` has accrued in all, after the first `k` moves. */
  function Level(burst: real, start: real, moves: seq<Move>, k: nat, accrued: real): real
    requires k <= |moves|
  {
    if k == 0 then Min(burst, start + accrued)
    else
      var m := moves[k - 1];
      Min(burst, Level(burst, start, moves, k - 1, m.accrued) - m.taken + accrued - m.accrued)
  }

  function Sum(moves: seq<Move>, j: nat, k: nat): real
    requires j <= k <= |moves|
  {
    if j == k then 0.0 else Sum(moves, j, k - 1) + moves[k - 1].taken
  }

  /** From a full bucket at move `j`. */
  function FromFull(burst: real, moves: seq<Move>, j: nat, k: nat, accrued: real): real
    requires j < k <= |moves|
  {
    burst + accrued - moves[j].accrued - Sum(moves, j, k)
  }

  ghost predicate Low(burst: real, start: real, moves: seq<Move>, k: nat, accrued: real, x: real)
    requires k <= |moves|
  {
    || start + accrued - Sum(moves, 0, k) < x
    || burst < x
    || exists j :: 0 <= j < k && FromFull(burst, moves, j, k, accrued) < x
  }

  lemma LowGrows(burst: real, start: real, moves: seq<Move>, k: nat, accrued: real, x: real)
    requires k < |moves|
    ensures var m := moves[k];
            Low(burst, start, moves, k + 1, accrued, x)
            <==> burst < x || Low(burst, start, moves, k, m.accrued, x + m.taken - accrued + m.accrued)
  {
    var m := moves[k];
    var y := x + m.taken - accrued + m.accrued;
    assert Sum(moves, 0, k + 1) == Sum(moves, 0, k) + m.taken;
    assert Sum(moves, k, k) == 0.0 && Sum(moves, k, k + 1) == m.taken;
    assert FromFull(burst, moves, k, k + 1, accrued) < x <==> burst < y;
    if j :| 0 <= j < k && FromFull(burst, moves, j, k, m.accrued) < y {
      FullGrows(burst, moves, j, k, accrued, x);
    }
    var n := k + 1;
    if j :| 0 <= j < n && FromFull(burst, moves, j, n, accrued) < x {
      if j < k {
        FullGrows(burst, moves, j, k, accrued, x);
      }
    }
  }

  lemma FullGrows(burst: real, moves: seq<Move>, j: nat, k: nat, accrued: real, x: real)
    requires j < k < |moves|
    ensures var m := moves[k];
            FromFull(burst, moves, j, k + 1, accrued) < x
            <==> FromFull(burst, moves, j, k, m.accrued) < x + m.taken - accrued + m.accrued
  {
    assert Sum(moves, j, k + 1) == Sum(moves, j, k) + moves[k].taken;
  }

  /** The level is exactly the least of what the start, or a full bucket at some move or now, would have left. */
  lemma {:induction false} LevelExactly(burst: real, start: real, moves: seq<Move>, k: nat,
                                        accrued: real, x: real)
    requires k <= |moves|
    ensures Level(burst, start, moves, k, accrued) < x <==> Low(burst, start, moves, k, accrued, x)
  {
    if k > 0 {
      var m := moves[k - 1];
      LevelExactly(burst, start, moves, k - 1, m.accrued, x + m.taken - accrued + m.accrued);
      LowGrows(burst, start, moves, k - 1, accrued, x);
    }
  }

  /** What has accrued in all when call `k` comes. */
  function Accrued(b: Bucket, calls: seq<Call>, k: nat): real
    requires k < |calls|
  {
    Gain(b.rate, b.last, calls[k].time)
  }

  function Moves(b: Bucket, calls: seq<Call>): seq<Move> {
    seq(|calls|, i requires 0 <= i < |calls| =>
      Move(Accrued(b, calls, i), if LetThrough(b, calls, i) then 1.0 else 0.0))
  }

  lemma {:induction false} SumIsCount(b: Bucket, calls: seq<Call>, j: nat, k: nat)
    requires j <= k <= |calls|
    ensures Sum(Moves(b, calls), j, k) == Count(b, calls, j, k) as real
  {
    if j < k {
      SumIsCount(b, calls, j, k - 1);
    }
  }

  /** The tokens a call finds. */
  function Found(b: Bucket, calls: seq<Call>, k: nat): real
    requires k < |calls|
  {
    Refill(StateAt(b, calls, k), calls[k].time).tokens
  }

  lemma ElapsedIsGain(rate: real, from: real, mid: real, until: real)
    ensures (until - mid) * rate == Gain(rate, mid, until) == Gain(rate, from, until) - Gain(rate, from, mid)
  {
    MulSplits(from, mid, until, rate);
  }

  lemma RefillTokens(s: Bucket, now: real)
    requires s.last <= now
    ensures Refill(s, now).tokens == Min(s.burst, s.tokens + Gain(s.rate, s.last, now))
  {
    assert Elapsed(s, now) == now - s.last;
  }

  lemma FoundNext(b: Bucket, calls: seq<Call>, k: nat)
    requires BucketOk(b) && Monotone(b.last, calls) && 0 < k < |calls|
    ensures Found(b, calls, k) == Min(b.burst, Found(b, calls, k - 1) - Moves(b, calls)[k - 1].taken
                                               + Accrued(b, calls, k) - Accrued(b, calls, k - 1))
  {
    var s := StateAt(b, calls, k);
    assert s.tokens == Found(b, calls, k - 1) - Moves(b, calls)[k - 1].taken;
    StateOk(b, calls, k);
    RefillTokens(s, calls[k].time);
    ElapsedIsGain(b.rate, b.last, calls[k - 1].time, calls[k].time);
  }

  lemma {:induction false} FoundIsLevel(b: Bucket, calls: seq<Call>, k: nat)
    requires BucketOk(b) && Monotone(b.last, calls) && k < |calls|
    ensures Found(b, calls, k) == Level(b.burst, b.tokens, Moves(b, calls), k, Accrued(b, calls, k))
  {
    if k == 0 {
      RefillTokens(b, calls[0].time);
    } else {
      FoundIsLevel(b, calls, k - 1);
      FoundNext(b, calls, k);
    }
  }

  /** What would be left for call `k` from the start, had the bucket no bound: the tokens then, what has accrued at the
      rate since, less what was let through. */
  function SinceStart(b: Bucket, calls: seq<Call>, k: nat): real
    requires k < |calls|
  {
    b.tokens + Gain(b.rate, b.last, calls[k].time) - Count(b, calls, 0, k) as real
  }

  /** The same from call `j`, had the bucket been full then. */
  function SinceFull(b: Bucket, calls: seq<Call>, j: nat, k: nat): real
    requires j < k < |calls|
  {
    b.burst + Gain(b.rate, calls[j].time, calls[k].time) - Count(b, calls, j, k) as real
  }

  lemma SameFromFull(b: Bucket, calls: seq<Call>, j: nat, k: nat)
    requires j < k < |calls|
    ensures FromFull(b.burst, Moves(b, calls), j, k, Accrued(b, calls, k)) == SinceFull(b, calls, j, k)
  {
    ElapsedIsGain(b.rate, b.last, calls[j].time, calls[k].time);
    SumIsCount(b, calls, j, k);
  }

  /** A request is refused exactly when the tokens at the start, or a full bucket at some earlier call or now, with
      what has accrued since and less what was let through since, would leave less than one. */
  lemma RefusedExactly(b: Bucket, calls: seq<Call>, k: nat)
    requires BucketOk(b) && Monotone(b.last, calls) && k < |calls| && calls[k].Ask?
    ensures !LetThrough(b, calls, k)
       <==> || SinceStart(b, calls, k) < 1.0
            || b.burst < 1.0
            || exists j :: 0 <= j < k && SinceFull(b, calls, j, k) < 1.0
  {
    FoundIsLevel(b, calls, k);
    LevelExactly(b.burst, b.tokens, Moves(b, calls), k, Accrued(b, calls, k), 1.0);
    SumIsCount(b, calls, 0, k);
    forall j | 0 <= j < k
      ensures FromFull(b.burst, Moves(b, calls), j, k, Accrued(b, calls, k)) == SinceFull(b, calls, j, k)
    {
      SameFromFull(b, calls, j, k);
    }
  }

  lemma EnoughAccrued(s: Bucket, now: real)
    requires BucketOk(s) && s.last <= now && s.burst >= 1.0 && (now - s.last) * s.rate >= 1.0
    ensures Allow(s, now).1
  {
    RefillTokens(s, now);
  }

  /** So a bucket that can hold one token lets every request through that comes long enough after the call before. */
  lemma SpacedRequestsPass(b: Bucket, calls: seq<Call>, k: nat)
    requires BucketOk(b) && Monotone(b.last, calls) && 0 < k < |calls| && calls[k].Ask? && b.burst >= 1.0
    requires (calls[k].time - calls[k - 1].time) * b.rate >= 1.0
    ensures LetThrough(b, calls, k)
  {
    StateOk(b, calls, k);
    EnoughAccrued(StateAt(b, calls, k), calls[k].time);
  }

  lemma {:induction false} StateShift(b: Bucket, calls: seq<Call>, k: nat)
    requires 0 < k <= |calls|
    ensures StateAt(b, calls, k) == StateAt(After(b, calls[0]), calls[1..], k - 1)
  {
    if k > 1 {
      StateShift(b, calls, k - 1);
    }
  }

  lemma {:induction false} CountShift(b: Bucket, calls: seq<Call>, k: nat)
    requires 0 < k <= |calls|
    ensures Count(b, calls, 0, k)
         == (if LetThrough(b, calls, 0) then 1 else 0) + Count(After(b, calls[0]), calls[1..], 0, k - 1)
  {
    if k > 1 {
      CountShift(b, calls, k - 1);
      StateShift(b, calls, k - 1);
    } else {
      assert Count(b, calls, 0, 0) == 0;
    }
  }

  /** The two ways to count what is admitted agree. */
  lemma {:induction false} CountIsAdmitted(b: Bucket, calls: seq<Call>)
    ensures Count(b, calls, 0, |calls|) == Admitted(b, calls)
    decreases |calls|
  {
    if calls != [] {
      CountIsAdmitted(After(b, calls[0]), calls[1..]);
      CountShift(b, calls, |calls|);
    }
  }

  // ----- the sliding window of one source -----

  lemma {:induction false} RemembersMore(all: seq<real>, calls: seq<SourceCall>, c: SourceCall, window: real, max: int)
    ensures var record := Remembers(all, calls, window, max).0;
            Remembers(all, calls + [c], window, max).0
            == if c.Try? && |Recent(record, c.time - window)| < max then record + [c.time] else record
    decreases |calls|
  {
    if calls == [] {
      assert [c][1..] == [] && [] + [c] == [c];
    } else {
      assert (calls + [c])[1..] == calls[1..] + [c];
      var t := calls[0].time;
      var next := if calls[0].Try? && |Recent(all, t - window)| < max then all + [t] else all;
      RemembersMore(next, calls[1..], c, window, max);
    }
  }

  lemma {:induction false} RecordedBefore(all: seq<real>, calls: seq<SourceCall>, window: real, max: int, t: real)
    requires forall x :: x in all ==> x <= t
    requires forall i :: 0 <= i < |calls| ==> calls[i].time <= t
    ensures forall x :: x in Remembers(all, calls, window, max).0 ==> x <= t
    decreases |calls|
  {
    if calls != [] {
      var now := calls[0].time;
      RecordedBefore(if calls[0].Try? && |Recent(all, now - window)| < max then all + [now] else all, calls[1..],
                     window, max, t);
    }
  }

  lemma {:induction false} TimesRise(calls: seq<SourceCall>, i: nat, j: nat)
    requires i <= j < |calls| && forall m :: 0 < m < |calls| ==> calls[m - 1].time <= calls[m].time
    ensures calls[i].time <= calls[j].time
    decreases j
  {
    if i < j { TimesRise(calls, i, j - 1); }
  }

  lemma AdmitsIsRecord(calls: seq<SourceCall>, window: real, max: int, from: real)
    requires MonotoneSource(from, calls)
    ensures Admits([], calls, window, max) == Remembers([], calls, window, max).0
  {
    AdmitsAreRecorded([], [], calls, window, max, from);
    assert [] + Admits([], calls, window, max) == Admits([], calls, window, max);
  }

  /** While the clock does not run backwards, an attempt is admitted exactly when fewer than the maximum were admitted
      in the window that ends with it; a sweep admits nothing and changes nothing. */
  lemma SourceAdmitsExactly(calls: seq<SourceCall>, window: real, max: int, from: real, k: nat)
    requires MonotoneSource(from, calls) && k < |calls|
    ensures var before, t := Admits([], calls[..k], window, max), calls[k].time;
            Admits([], calls[..k + 1], window, max)
            == if calls[k].Try? && |Filter(before, Within(t - window, t))| < max then before + [t] else before
  {
    var earlier, t := calls[..k], calls[k].time;
    assert calls[..k + 1] == earlier + [calls[k]];
    assert MonotoneSource(from, earlier) && MonotoneSource(from, calls[..k + 1]);
    AdmitsIsRecord(earlier, window, max, from);
    AdmitsIsRecord(calls[..k + 1], window, max, from);
    RemembersMore([], earlier, calls[k], window, max);
    forall i | 0 <= i < k ensures earlier[i].time <= t { TimesRise(calls, i, k); }
    RecordedBefore([], earlier, window, max, t);
    FilterCongruent(Remembers([], earlier, window, max).0, Later(t - window), Within(t - window, t));
  }
}

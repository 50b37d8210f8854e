/** Admission of inbound handshakes: a process-wide token bucket and a per-source sliding window. */
module RateLimits {
  import opened Results
  import opened Lists

  // ----- token bucket -----

  datatype Bucket = Bucket(rate: real, burst: real, tokens: real, last: real)

  function Min(x: real, y: real): real {
    if x < y then x else y
  }

  function Elapsed(b: Bucket, now: real): real {
    if now > b.last then now - b.last else 0.0
  }

  function Refill(b: Bucket, now: real): Bucket {
    b.(tokens := Min(b.burst, b.tokens + Elapsed(b, now) * b.rate), last := now)
  }

  function Allow(b: Bucket, now: real): (Bucket, bool) {
    var r := Refill(b, now);
    if r.tokens < 1.0 then (r, false) else (r.(tokens := r.tokens - 1.0), true)
  }

  ghost predicate BucketOk(b: Bucket) {
    b.rate > 0.0 && b.burst > 0.0 && 0.0 <= b.tokens <= b.burst
  }

  class GlobalHandshakeLimiter {
    const rate: real
    const burst: real
    var tokens: real
    var last: real

    ghost function View(): Bucket
      reads this
    {
      Bucket(rate, burst, tokens, last)
    }

    constructor (rate: real, burst: real, now: real)
      requires rate > 0.0 && burst > 0.0
      ensures View() == Bucket(rate, burst, burst, now) && BucketOk(View())
    {
      this.rate, this.burst, tokens, last := rate, burst, burst, now;
    }

    method RefillNow(now: real)
      modifies this
      ensures View() == Refill(old(View()), now)
    {
      var elapsed := if now > last then now - last else 0.0;
      last := now;
      tokens := Min(burst, tokens + elapsed * rate);
    }

    method Tokens(now: real) returns (t: real)
      modifies this
      ensures View() == Refill(old(View()), now) && t == tokens
    {
      RefillNow(now);
      t := tokens;
    }

    method AllowNow(now: real) returns (ok: bool)
      modifies this
      ensures (View(), ok) == Allow(old(View()), now)
    {
      RefillNow(now);
      if tokens < 1.0 { return false; }
      tokens := tokens - 1.0;
      ok := true;
    }
  }

  /** A call on the limiter at some time: an admission request, or a look at the token count. */
  datatype Call = Ask(time: real) | Look(time: real)

  ghost predicate Monotone(from: real, calls: seq<Call>) {
    && (calls != [] ==> from <= calls[0].time)
    && (forall i :: 0 < i < |calls| ==> calls[i - 1].time <= calls[i].time)
  }

  function After(b: Bucket, c: Call): Bucket {
    if c.Ask? then Allow(b, c.time).0 else Refill(b, c.time)
  }

  function Admitted(b: Bucket, calls: seq<Call>): nat
    decreases |calls|
  {
    if calls == [] then 0
    else (if calls[0].Ask? && Allow(b, calls[0].time).1 then 1 else 0) + Admitted(After(b, calls[0]), calls[1..])
  }

  function Decisions(b: Bucket, calls: seq<Call>): seq<bool>
    decreases |calls|
  {
    if calls == [] then []
    else (if calls[0].Ask? then [Allow(b, calls[0].time).1] else []) + Decisions(After(b, calls[0]), calls[1..])
  }

  function Asks(calls: seq<Call>): seq<Call> {
    if calls == [] then [] else (if calls[0].Ask? then [calls[0]] else []) + Asks(calls[1..])
  }

  lemma MulNonNegative(x: real, r: real)
    requires x >= 0.0 && r > 0.0
    ensures x * r >= 0.0
  {}

  lemma MulSplits(x: real, y: real, z: real, r: real)
    ensures (y - x) * r + (z - y) * r == (z - x) * r
  {}

  /** The tokens that accrue between two times. */
  function Gain(rate: real, from: real, until: real): real {
    (until - from) * rate
  }

  lemma GainFacts(rate: real, from: real, mid: real, until: real)
    requires rate > 0.0 && from <= mid <= until
    ensures Gain(rate, from, mid) + Gain(rate, mid, until) == Gain(rate, from, until)
    ensures Gain(rate, from, mid) >= 0.0 && Gain(rate, mid, until) >= 0.0
  {
    MulSplits(from, mid, until, rate);
    MulNonNegative(mid - from, rate);
    MulNonNegative(until - mid, rate);
  }

  lemma Chain(cost: nat, rest: nat, after: real, before: real, now: real, later: real, all: real)
    requires rest as real <= after + later && cost as real + after <= before + now && now + later == all
    ensures (cost + rest) as real <= before + all
  {}

  lemma TokensInRange(b: Bucket, c: Call)
    requires BucketOk(b)
    ensures BucketOk(After(b, c)) && After(b, c).last == c.time
    ensures After(b, c).rate == b.rate && After(b, c).burst == b.burst
  {
    MulNonNegative(Elapsed(b, c.time), b.rate);
  }

  function Cost(b: Bucket, c: Call): nat {
    if c.Ask? && Allow(b, c.time).1 then 1 else 0
  }

  lemma OneCallIsPaidFor(b: Bucket, c: Call)
    requires BucketOk(b) && b.last <= c.time
    ensures Cost(b, c) as real + After(b, c).tokens <= b.tokens + Gain(b.rate, b.last, c.time)
    ensures Cost(b, c) as real + After(b, c).tokens <= b.burst
  {
    assert Elapsed(b, c.time) == c.time - b.last;
    assert Elapsed(b, c.time) * b.rate == Gain(b.rate, b.last, c.time);
    assert Cost(b, c) as real + After(b, c).tokens == Refill(b, c.time).tokens;
  }

  /** What is admitted is paid for by tokens in hand and tokens accrued since. */
  lemma {:induction false} AdmissionsArePaidFor(b: Bucket, calls: seq<Call>, until: real)
    requires BucketOk(b) && Monotone(b.last, calls) && b.last <= until
    requires calls != [] ==> calls[|calls| - 1].time <= until
    ensures Admitted(b, calls) as real <= b.tokens + Gain(b.rate, b.last, until)
    decreases |calls|
  {
    if calls == [] {
      GainFacts(b.rate, b.last, b.last, until);
    } else {
      var c := calls[0];
      var b' := After(b, c);
      TokensInRange(b, c);
      LastIsLatest(calls, 0);
      assert Monotone(b'.last, calls[1..]);
      AdmissionsArePaidFor(b', calls[1..], until);
      OneCallIsPaidFor(b, c);
      GainFacts(b.rate, b.last, c.time, until);
      Chain(Cost(b, c), Admitted(b', calls[1..]), b'.tokens, b.tokens,
            Gain(b.rate, b.last, c.time), Gain(b.rate, c.time, until), Gain(b.rate, b.last, until));
    }
  }

  lemma {:induction false} LastIsLatest(calls: seq<Call>, i: nat)
    requires i < |calls| && forall j :: 0 < j < |calls| ==> calls[j - 1].time <= calls[j].time
    ensures calls[i].time <= calls[|calls| - 1].time
    decreases |calls| - i
  {
    if i + 1 < |calls| {
      LastIsLatest(calls, i + 1);
    }
  }

  /** Between any two times, whatever happened before, at most burst + rate * length are admitted. */
  lemma RateHoldsOverEveryInterval(b: Bucket, calls: seq<Call>, from: real, until: real)
    requires BucketOk(b) && Monotone(b.last, calls) && from <= until
    requires calls != [] ==> from <= calls[0].time && calls[|calls| - 1].time <= until
    ensures Admitted(b, calls) as real <= b.burst + Gain(b.rate, from, until)
  {
    if calls == [] {
      GainFacts(b.rate, from, from, until);
    } else {
      var c := calls[0];
      var b' := After(b, c);
      TokensInRange(b, c);
      LastIsLatest(calls, 0);
      assert Monotone(b'.last, calls[1..]);
      AdmissionsArePaidFor(b', calls[1..], until);
      OneCallIsPaidFor(b, c);
      GainFacts(b.rate, from, c.time, until);
      Chain(Cost(b, c), Admitted(b', calls[1..]), b'.tokens, b.burst,
            0.0, Gain(b.rate, c.time, until), Gain(b.rate, c.time, until));
    }
  }

  lemma RefillTwice(b: Bucket, t: real, u: real)
    requires BucketOk(b) && b.last <= t <= u
    ensures Refill(Refill(b, t), u) == Refill(b, u)
  {
    var r := b.rate;
    MulSplits(b.last, t, u, r);
    MulNonNegative(t - b.last, r);
    MulNonNegative(u - t, r);
  }

  /** Looking at the token count never changes a later decision. */
  lemma {:induction false} LooksAreInvisible(b: Bucket, calls: seq<Call>)
    requires BucketOk(b) && Monotone(b.last, calls)
    ensures Decisions(b, calls) == Decisions(b, Asks(calls))
    decreases |calls|
  {
    if calls != [] {
      var c, rest := calls[0], calls[1..];
      TokensInRange(b, c);
      LooksAreInvisible(After(b, c), rest);
      if c.Ask? {
        assert Asks(calls)[1..] == Asks(rest);
      } else if Asks(rest) != [] {
        AsksNotBefore(rest, c.time);
        var next := Asks(rest)[0];
        RefillTwice(b, c.time, next.time);
        assert Asks(calls) == Asks(rest);
      }
    }
  }

  lemma {:induction false} AsksNotBefore(calls: seq<Call>, from: real)
    requires Monotone(from, calls)
    ensures Asks(calls) != [] ==> Asks(calls)[0].Ask? && from <= Asks(calls)[0].time
  {
    if calls != [] && !calls[0].Ask? {
      AsksNotBefore(calls[1..], from);
    }
  }

  // ----- sliding window per source -----

  function Later(cutoff: real): real -> bool {
    t => t > cutoff
  }

  /** The recorded attempts still inside the window. */
  function Recent(times: seq<real>, cutoff: real): seq<real> {
    Filter(times, Later(cutoff))
  }

  function Attempt(times: seq<real>, now: real, window: real, max: int): (seq<real>, bool) {
    var kept := Recent(times, now - window);
    if |kept| >= max then (kept, false) else (kept + [now], true)
  }

  /** Pruning drops a source whose attempts have all aged out, and leaves the others as they are. */
  function Pruned(times: seq<real>, now: real, window: real): seq<real> {
    if Recent(times, now - window) == [] then [] else times
  }

  lemma PruningKeepsExactly(times: seq<real>, now: real, window: real)
    ensures Pruned(times, now, window) == if exists t :: t in times && t > now - window then times else []
  {
    FilterMembers(times, Later(now - window));
    var recent := Recent(times, now - window);
    if recent != [] {
      assert recent[0] in recent;
    }
    if t :| t in times && t > now - window {
      assert t in recent;
    }
  }

  class SourceIpRateLimiter {
    const max: int
    const window: real
    var attempts: map<string, seq<real>>

    constructor (max: int, window: real)
      requires max > 0 && window > 0.0
      ensures this.max == max && this.window == window && attempts == map[]
    {
      this.max, this.window, attempts := max, window, map[];
    }

    function Times(source: string): seq<real>
      reads this
    {
      if source in attempts then attempts[source] else []
    }

    method AllowFrom(source: string, now: real) returns (ok: bool)
      modifies this
      ensures (Times(source), ok) == Attempt(old(Times(source)), now, window, max)
      ensures forall t :: t in Times(source) <==> (t in old(Times(source)) && t > now - window) || (ok && t == now)
      ensures forall s :: s != source ==> Times(s) == old(Times(s))
    {
      var cutoff := now - window;
      var times := if source in attempts then attempts[source] else [];
      var kept: seq<real> := [];
      for i := 0 to |times|
        invariant kept == FilterTo(times, Later(cutoff), i)
      {
        if times[i] > cutoff { kept := kept + [times[i]]; }
      }
      FilterMembers(times, Later(cutoff));
      ok := |kept| < max;
      attempts := attempts[source := if ok then kept + [now] else kept];
    }

    /** Forgets one source, or every source. */
    method Reset(source: Option<string>)
      modifies this
      ensures forall s :: Times(s) == if source == None || source == Some(s) then [] else old(Times(s))
    {
      attempts := if source.None? then map[] else attempts - {source.value};
    }

    method Prune(now: real) returns (count: nat)
      modifies this
      ensures forall s :: Times(s) == Pruned(old(Times(s)), now, window)
      ensures count == |old(attempts)| - |attempts|
    {
      var todo := attempts.Keys;
      count := 0;
      while todo != {}
        invariant todo <= attempts.Keys <= old(attempts.Keys)
        invariant forall s :: s in attempts ==> attempts[s] == old(attempts[s])
        invariant forall s :: s in old(attempts) && s !in todo ==>
                    (s in attempts <==> Recent(old(attempts[s]), now - window) != [])
        invariant count == |old(attempts)| - |attempts|
        decreases todo
      {
        var s :| s in todo;
        var recent := Filter(attempts[s], Later(now - window));
        if recent == [] {
          assert attempts == (attempts - {s})[s := attempts[s]];
          attempts := attempts - {s};
          count := count + 1;
        }
        todo := todo - {s};
      }
    }
  }

  datatype SourceCall = Try(time: real) | Sweep(time: real)

  /** What the limiter keeps and decides over a sequence of calls about one source. */
  function Keeps(times: seq<real>, calls: seq<SourceCall>, window: real, max: int): seq<bool>
    decreases |calls|
  {
    if calls == [] then []
    else if calls[0].Try? then
      var (kept, ok) := Attempt(times, calls[0].time, window, max);
      [ok] + Keeps(kept, calls[1..], window, max)
    else Keeps(Pruned(times, calls[0].time, window), calls[1..], window, max)
  }

  /** The times it admits. */
  function Admits(times: seq<real>, calls: seq<SourceCall>, window: real, max: int): seq<real>
    decreases |calls|
  {
    if calls == [] then []
    else if calls[0].Try? then
      var (kept, ok) := Attempt(times, calls[0].time, window, max);
      (if ok then [calls[0].time] else []) + Admits(kept, calls[1..], window, max)
    else Admits(Pruned(times, calls[0].time, window), calls[1..], window, max)
  }

  /** The same with nothing ever forgotten: every admitted attempt stays on record. */
  function Remembers(all: seq<real>, calls: seq<SourceCall>, window: real, max: int): (seq<real>, seq<bool>)
    decreases |calls|
  {
    if calls == [] then (all, [])
    else if calls[0].Try? then
      var ok := |Recent(all, calls[0].time - window)| < max;
      var (record, later) := Remembers(if ok then all + [calls[0].time] else all, calls[1..], window, max);
      (record, [ok] + later)
    else Remembers(all, calls[1..], window, max)
  }

  ghost predicate MonotoneSource(from: real, calls: seq<SourceCall>) {
    && (calls != [] ==> from <= calls[0].time)
    && (forall i :: 0 < i < |calls| ==> calls[i - 1].time <= calls[i].time)
  }

  /** The kept list and the full record agree on everything that can still matter. */
  ghost predicate AgreeFrom(times: seq<real>, all: seq<real>, cutoff: real) {
    forall c :: c >= cutoff ==> Recent(times, c) == Recent(all, c)
  }

  lemma RecentRecent(times: seq<real>, c: real, d: real)
    requires c <= d
    ensures Recent(Recent(times, c), d) == Recent(times, d)
  {
    FilterFilter(times, Later(c), Later(d));
    FilterCongruent(times, Both(Later(c), Later(d)), Later(d));
  }

  lemma AttemptAgrees(times: seq<real>, all: seq<real>, now: real, window: real, max: int, from: real)
    requires AgreeFrom(times, all, from - window) && from <= now
    ensures var (kept, ok) := Attempt(times, now, window, max);
            && ok == (|Recent(all, now - window)| < max)
            && AgreeFrom(kept, if ok then all + [now] else all, now - window)
  {
    var (kept, ok) := Attempt(times, now, window, max);
    var all' := if ok then all + [now] else all;
    forall c | c >= now - window ensures Recent(kept, c) == Recent(all', c) {
      RecentRecent(times, now - window, c);
      if ok {
        FilterAppend(Recent(times, now - window), now, Later(c));
        FilterAppend(all, now, Later(c));
      }
    }
  }

  lemma PrunedAgrees(times: seq<real>, all: seq<real>, now: real, window: real, from: real)
    requires AgreeFrom(times, all, from - window) && from <= now
    ensures AgreeFrom(Pruned(times, now, window), all, now - window)
  {
    if Recent(times, now - window) == [] {
      forall c | c >= now - window ensures Recent([], c) == Recent(all, c) {
        RecentRecent(times, now - window, c);
      }
    }
  }

  /** With a clock that does not run backwards, neither ageing out nor pruning ever changes a decision. */
  lemma {:induction false} ForgettingIsInvisible(
    times: seq<real>, all: seq<real>, calls: seq<SourceCall>, window: real, max: int, from: real)
    requires AgreeFrom(times, all, from - window) && MonotoneSource(from, calls)
    ensures Keeps(times, calls, window, max) == Remembers(all, calls, window, max).1
    decreases |calls|
  {
    if calls != [] {
      var now := calls[0].time;
      if calls[0].Try? {
        AttemptAgrees(times, all, now, window, max, from);
        var (kept, ok) := Attempt(times, now, window, max);
        ForgettingIsInvisible(kept, if ok then all + [now] else all, calls[1..], window, max, now);
      } else {
        PrunedAgrees(times, all, now, window, from);
        ForgettingIsInvisible(Pruned(times, now, window), all, calls[1..], window, max, now);
      }
    }
  }

  /** Nor does it change what is admitted: the limiter admits exactly what the full record adds. */
  lemma {:induction false} AdmitsAreRecorded(
    times: seq<real>, all: seq<real>, calls: seq<SourceCall>, window: real, max: int, from: real)
    requires AgreeFrom(times, all, from - window) && MonotoneSource(from, calls)
    ensures all + Admits(times, calls, window, max) == Remembers(all, calls, window, max).0
    decreases |calls|
  {
    if calls == [] {
      assert all + [] == all;
    } else {
      var now := calls[0].time;
      if calls[0].Try? {
        AttemptAgrees(times, all, now, window, max, from);
        var (kept, ok) := Attempt(times, now, window, max);
        var all', rest := if ok then all + [now] else all, Admits(kept, calls[1..], window, max);
        AdmitsAreRecorded(kept, all', calls[1..], window, max, now);
        assert all + ((if ok then [now] else []) + rest) == all' + rest;
      } else {
        PrunedAgrees(times, all, now, window, from);
        AdmitsAreRecorded(Pruned(times, now, window), all, calls[1..], window, max, now);
      }
    }
  }

  /** The record built by admitting a try exactly when fewer than `max` recent ones precede it. */
  ghost predicate Admissible(all: seq<real>, window: real, max: int) {
    forall i :: 0 <= i < |all| ==> |Recent(all[..i], all[i] - window)| < max
  }

  function Within(a: real, b: real): real -> bool {
    t => a < t <= b
  }

  lemma {:induction false} WeakerKeepsMore(s: seq<real>, f: real -> bool, g: real -> bool, k: nat)
    requires k <= |s| && forall t :: f(t) ==> g(t)
    ensures |FilterTo(s, f, k)| <= |FilterTo(s, g, k)|
  {
    if k > 0 {
      WeakerKeepsMore(s, f, g, k - 1);
    }
  }

  lemma AdmissibleAt(all: seq<real>, n: nat, i: nat, window: real, max: int)
    requires i < n <= |all| && Admissible(all, window, max)
    ensures |Recent(all[..n][..i], all[..n][i] - window)| < max
  {
    assert all[..n][..i] == all[..i];
  }

  lemma AdmissiblePrefix(all: seq<real>, window: real, max: int)
    requires all != [] && Admissible(all, window, max)
    ensures Admissible(all[..|all| - 1], window, max)
  {
    var before := all[..|all| - 1];
    forall i | 0 <= i < |before| ensures |Recent(before[..i], before[i] - window)| < max {
      AdmissibleAt(all, |before|, i, window, max);
    }
  }

  /** Every half-open interval of window length holds at most `max` admitted attempts. */
  lemma {:induction false} WindowHoldsEverywhere(all: seq<real>, window: real, max: int, a: real)
    requires Admissible(all, window, max) && max > 0
    ensures |Filter(all, Within(a, a + window))| <= max
  {
    if all != [] {
      var n := |all| - 1;
      var before, t := all[..n], all[n];
      AdmissiblePrefix(all, window, max);
      WindowHoldsEverywhere(before, window, max, a);
      assert |Recent(before, t - window)| < max;
      assert all == before + [t];
      FilterAppend(before, t, Within(a, a + window));
      if a < t <= a + window {
        WeakerKeepsMore(before, Within(a, a + window), Later(t - window), n);
      }
    }
  }

  lemma AdmissibleGrows(all: seq<real>, t: real, window: real, max: int)
    requires Admissible(all, window, max) && |Recent(all, t - window)| < max
    ensures Admissible(all + [t], window, max)
  {
    forall i | 0 <= i < |all + [t]| ensures |Recent((all + [t])[..i], (all + [t])[i] - window)| < max {
      if i == |all| {
        assert (all + [t])[..i] == all;
      } else {
        assert (all + [t])[..i] == all[..i] && (all + [t])[i] == all[i];
      }
    }
  }

  lemma {:induction false} RecordIsAdmissible(all: seq<real>, calls: seq<SourceCall>, window: real, max: int)
    requires Admissible(all, window, max)
    ensures Admissible(Remembers(all, calls, window, max).0, window, max)
    decreases |calls|
  {
    if calls != [] {
      var t := calls[0].time;
      if calls[0].Try? && |Recent(all, t - window)| < max {
        AdmissibleGrows(all, t, window, max);
        RecordIsAdmissible(all + [t], calls[1..], window, max);
      } else {
        RecordIsAdmissible(all, calls[1..], window, max);
      }
    }
  }

  /** At most `max` of what the limiter admits fall into the window-long interval after `a`. */
  ghost predicate WithinLimit(calls: seq<SourceCall>, window: real, max: int, a: real) {
    |Filter(Admits([], calls, window, max), Within(a, a + window))| <= max
  }

  /** While the clock does not run backwards, that is so of every such interval. */
  lemma SourceLimitHolds(calls: seq<SourceCall>, window: real, max: int, from: real, a: real)
    requires max > 0 && MonotoneSource(from, calls)
    ensures WithinLimit(calls, window, max, a)
  {
    AdmitsAreRecorded([], [], calls, window, max, from);
    assert [] + Admits([], calls, window, max) == Admits([], calls, window, max);
    RecordIsAdmissible([], calls, window, max);
    WindowHoldsEverywhere(Remembers([], calls, window, max).0, window, max, a);
  }

  // ----- one backward step is enough to break it -----

  function Burst(n: nat, t: real): seq<real> {
    seq(n, _ => t)
  }

  /** `n` tries at time `s`, a prune at time `v`, and one more try at time `u`. */
  function SteppedBack(n: nat, s: real, v: real, u: real): seq<SourceCall> {
    seq(n, _ => Try(s)) + [Sweep(v), Try(u)]
  }

  lemma {:induction false} BurstAdmitted(have: nat, n: nat, s: real, v: real, u: real, window: real, max: int)
    requires window > 0.0 && have + n <= max
    ensures Admits(Burst(have, s), SteppedBack(n, s, v, u), window, max)
         == Burst(n, s) + Admits(Burst(have + n, s), [Sweep(v), Try(u)], window, max)
    decreases n
  {
    var last := [Sweep(v), Try(u)];
    if n == 0 {
      assert SteppedBack(n, s, v, u) == last;
      assert Burst(n, s) + Admits(Burst(have, s), last, window, max) == Admits(Burst(have, s), last, window, max);
    } else {
      var rest := SteppedBack(n - 1, s, v, u);
      assert SteppedBack(n, s, v, u) == [Try(s)] + rest;
      BurstGrows(have, s, window, max);
      FirstAdmitted(Burst(have, s), Burst(have + 1, s), s, rest, window, max);
      BurstAdmitted(have + 1, n - 1, s, v, u, window, max);
      OneMore(n - 1, s, Admits(Burst(have + n, s), last, window, max));
    }
  }

  lemma OneMore(n: nat, s: real, rest: seq<real>)
    ensures [s] + (Burst(n, s) + rest) == Burst(n + 1, s) + rest
  {}

  lemma FirstAdmitted(times: seq<real>, kept: seq<real>, t: real, rest: seq<SourceCall>, window: real, max: int)
    requires Attempt(times, t, window, max) == (kept, true)
    ensures Admits(times, [Try(t)] + rest, window, max) == [t] + Admits(kept, rest, window, max)
  {
    assert ([Try(t)] + rest)[1..] == rest;
  }

  lemma BurstGrows(have: nat, s: real, window: real, max: int)
    requires window > 0.0 && have < max
    ensures Attempt(Burst(have, s), s, window, max) == (Burst(have + 1, s), true)
  {
    FilterAll(Burst(have, s), Later(s - window));
    assert Burst(have, s) + [s] == Burst(have + 1, s);
  }

  lemma {:induction false} NothingLater(n: nat, s: real, cutoff: real, k: nat)
    requires s <= cutoff && k <= n
    ensures FilterTo(Burst(n, s), Later(cutoff), k) == []
  {
    if k > 0 { NothingLater(n, s, cutoff, k - 1); }
  }

  lemma SteppedBackOverfills(window: real, max: int, s: real, v: real, u: real)
    requires window > 0.0 && max > 0 && u - window < s <= u && s <= v - window
    ensures |Filter(Admits([], SteppedBack(max, s, v, u), window, max), Within(u - window, u - window + window))|
            == max + 1
  {
    assert Burst(0, s) == [];
    BurstAdmitted(0, max, s, v, u, window, max);
    NothingLater(max, s, v - window, max);
    LastAdmitted(Burst(max, s), v, u, window, max);
    FilterAll(Burst(max, s) + [u], Within(u - window, u - window + window));
  }

  lemma LastAdmitted(times: seq<real>, v: real, u: real, window: real, max: int)
    requires max > 0 && Recent(times, v - window) == []
    ensures Admits(times, [Sweep(v), Try(u)], window, max) == [u]
  {
    var calls, last := [Sweep(v), Try(u)], [Try(u)];
    assert calls[1..] == last && last[1..] == [];
    assert Admits([], last, window, max) == [u];
  }

  /** The limiter reads the wall clock. However small a step back from `v` to `u` is, and with no other step
      back, one more attempt than the limit can be admitted within one window; so the limit holds on
      all calls that end in a step from `v` to `u` exactly when that step is not backwards. */
  lemma BackwardStepExactly(window: real, max: int, v: real, u: real)
    requires window > 0.0 && max > 0
    ensures (forall calls, a | EndsWithStep(calls, v, u) :: WithinLimit(calls, window, max, a)) <==> v <= u
  {
    if v <= u {
      forall calls: seq<SourceCall>, a | EndsWithStep(calls, v, u) ensures WithinLimit(calls, window, max, a) {
        SourceLimitHolds(calls, window, max, calls[0].time, a);
      }
    } else {
      var s := if v - window <= u then v - window else u;
      var calls := SteppedBack(max, s, v, u);
      SteppedBackOverfills(window, max, s, v, u);
      assert EndsWithStep(calls, v, u) && !WithinLimit(calls, window, max, u - window);
    }
  }

  /** The last two calls are at `v` and at `u`, and the clock did not run backwards before. */
  ghost predicate EndsWithStep(calls: seq<SourceCall>, v: real, u: real) {
    && |calls| >= 2 && calls[|calls| - 2].time == v && calls[|calls| - 1].time == u
    && forall i :: 0 < i < |calls| - 1 ==> calls[i - 1].time <= calls[i].time
  }
}

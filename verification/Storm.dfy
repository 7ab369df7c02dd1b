/** internal/l2/storm.go: the sliding-window policer of broadcast storms. Times are whole
    nanoseconds; packet counts are uint32, with the wrap-around written out. */
module Storm {
  const WRAP: nat := 0x1_0000_0000
  const MAX_STORM_PACKETS: nat := 1_000_000

  datatype Sample = Sample(at: int, packets: nat)

  // ---------------------------------------------------------------------- the code

  /** The samples that are not before `cutoff`. */
  function Window(samples: seq<Sample>, cutoff: int): seq<Sample> {
    if samples == [] then []
    else
      var k := |samples| - 1;
      Window(samples[..k], cutoff) + (if samples[k].at < cutoff then [] else [samples[k]])
  }

  function Sum(samples: seq<Sample>): nat {
    if samples == [] then 0 else Sum(samples[..|samples| - 1]) + samples[|samples| - 1].packets
  }

  /** uint32 addition and subtraction of values below 2^32. */
  function Add(a: int, b: int): int { if a + b >= WRAP then a + b - WRAP else a + b }

  function Sub(a: int, b: int): int { if a >= b then a - b else a - b + WRAP }

  function Wrapped(n: nat): int { n % WRAP }

  /** The running total of the window, in uint32. */
  function Total(samples: seq<Sample>): int {
    if samples == [] then 0 else Add(Total(samples[..|samples| - 1]), samples[|samples| - 1].packets)
  }

  /** What storm control lets through of `packets`, given the computed rate. */
  function Admit(rate: int, packets: nat, threshold: nat): int {
    if rate > threshold && Sub(rate, packets) < threshold then threshold - Sub(rate, packets)
    else if rate > threshold then 0
    else packets
  }

  // -------------------------------------------------------------------- histories

  /** The retained samples of a port after the injections `h`. */
  function Retained(h: seq<Sample>, window: int): seq<Sample> {
    if h == [] then []
    else
      var k := |h| - 1;
      Window(Retained(h[..k], window), h[k].at - window) + [h[k]]
  }

  /** The rate the code computes for the last injection, and what it admits. */
  function Rate(h: seq<Sample>, window: int): int
    requires h != []
  {
    Total(Retained(h, window))
  }

  function Accepted(h: seq<Sample>, window: int, threshold: nat): int
    requires h != []
  {
    Admit(Rate(h, window), h[|h| - 1].packets, threshold)
  }

  /** The clock does not run backwards. */
  predicate Forward(h: seq<Sample>) {
    forall i, j :: 0 <= i <= j < |h| ==> h[i].at <= h[j].at
  }

  /** Each count is a uint32. */
  predicate Counts(h: seq<Sample>) {
    forall i :: 0 <= i < |h| ==> h[i].packets < WRAP
  }

  predicate In(s: Sample, from: int, window: int) {
    from <= s.at <= from + window
  }

  /** What was offered at times in `[from, from + window]`. */
  function OfferedIn(h: seq<Sample>, window: int, from: int): nat {
    if h == [] then 0
    else
      var k := |h| - 1;
      OfferedIn(h[..k], window, from) + (if In(h[k], from, window) then h[k].packets else 0)
  }

  /** Everything offered on the port in the window that ends with the last injection. */
  function Offered(h: seq<Sample>, window: int): nat
    requires h != []
  {
    OfferedIn(h, window, h[|h| - 1].at - window)
  }

  // ------------------------------------------------------------------------- window

  lemma {:induction false} WindowTwice(s: seq<Sample>, c: int, d: int)
    requires c <= d
    ensures Window(Window(s, c), d) == Window(s, d)
    decreases |s|
  {
    if s != [] {
      var k := |s| - 1;
      WindowTwice(s[..k], c, d);
      WindowConcat(Window(s[..k], c), if s[k].at < c then [] else [s[k]], d);
    }
  }

  lemma {:induction false} WindowConcat(a: seq<Sample>, b: seq<Sample>, d: int)
    requires |b| <= 1
    ensures Window(a + b, d) == Window(a, d) + Window(b, d)
  {
    if b == [] { assert a + b == a; } else { assert (a + b)[..|a|] == a && b[..0] == []; }
  }

  lemma {:induction false} SumConcat(a: seq<Sample>, b: seq<Sample>)
    requires |b| <= 1
    ensures Sum(a + b) == Sum(a) + Sum(b)
  {
    if b == [] { assert a + b == a; } else { assert (a + b)[..|a|] == a && b[..0] == []; }
  }

  /** Dropping old samples loses nothing: what is retained is the window of the full history, which
      is its last samples, those no older than the window. */
  lemma {:induction false} RetainedIsWindow(h: seq<Sample>, window: int)
    requires h != [] && Forward(h) && window >= 0
    ensures Retained(h, window) == Window(h, h[|h| - 1].at - window)
    ensures exists n :: 0 <= n < |h| && Retained(h, window) == h[n..]
                        && forall i :: 0 <= i < |h| ==> (h[i].at < h[|h| - 1].at - window <==> i < n)
    decreases |h|
  {
    hide Window, Retained;
    var k := |h| - 1;
    var g, cutoff := h[..k], h[k].at - window;
    Unfold(h, window);
    if k > 0 {
      assert g[|g| - 1] == h[k - 1] && h[k - 1].at <= h[k].at;
      RetainedIsWindow(g, window);
      WindowTwice(g, h[k - 1].at - window, cutoff);
    } else {
      Nothing(cutoff, window);
      assert g == [];
    }
    var n := WindowIsSuffix(h, cutoff);
    assert h[k].at >= cutoff;
  }

  lemma Unfold(h: seq<Sample>, window: int)
    requires h != [] && window >= 0
    ensures var k := |h| - 1; var g, cutoff := h[..k], h[k].at - window;
            && Retained(h, window) == Window(Retained(g, window), cutoff) + [h[k]]
            && Window(h, cutoff) == Window(g, cutoff) + [h[k]]
  {
  }

  lemma Nothing(cutoff: int, window: int)
    ensures Window([], cutoff) == [] && Retained([], window) == []
  {
  }

  lemma {:induction false} OfferedSplits(h: seq<Sample>, window: int)
    requires h != [] && window >= 0
    ensures Offered(h, window) == Before(h, window, |h| - 1) + h[|h| - 1].packets
  {
  }

  lemma WindowSnoc(s: seq<Sample>, i: nat, cutoff: int)
    requires i < |s|
    ensures Window(s[..i + 1], cutoff) == Window(s[..i], cutoff) + (if s[i].at < cutoff then [] else [s[i]])
  {
    assert s[..i + 1][..i] == s[..i];
  }

  lemma TotalSnoc(s: seq<Sample>, x: Sample)
    ensures Total(s + [x]) == Add(Total(s), x.packets)
  {
    assert (s + [x])[..|s|] == s;
  }

  /** With a clock that does not run backwards, the samples not before the cutoff are the last ones. */
  lemma {:induction false} WindowIsSuffix(h: seq<Sample>, cutoff: int) returns (n: nat)
    requires Forward(h)
    ensures n <= |h| && Window(h, cutoff) == h[n..]
    ensures forall i :: 0 <= i < |h| ==> (h[i].at < cutoff <==> i < n)
    decreases |h|
  {
    if h == [] {
      n := 0;
    } else {
      var k := |h| - 1;
      n := WindowIsSuffix(h[..k], cutoff);
      WindowSnoc(h, k, cutoff);
      assert h[..k + 1] == h && forall i :: 0 <= i < k ==> h[..k][i] == h[i];
      hide Window;
      assert h[..k][n..] + [h[k]] == h[n..];
      if h[k].at < cutoff {
        assert n == k;
        n := k + 1;
      }
    }
  }

  /** Backwards or not, each sample not before the cutoff is kept as often as it was there. */
  lemma {:induction false} WindowKeeps(s: seq<Sample>, cutoff: int, x: Sample)
    ensures multiset(Window(s, cutoff))[x] == if x.at < cutoff then 0 else multiset(s)[x]
    decreases |s|
  {
    if s != [] {
      var k := |s| - 1;
      WindowKeeps(s[..k], cutoff, x);
      assert s == s[..k] + [s[k]];
    }
  }

  /** The sum of the window is the load offered in it. */
  lemma {:induction false} SumIsOffered(h: seq<Sample>, window: int, end: int)
    requires Forward(h) && window >= 0 && forall i :: 0 <= i < |h| ==> h[i].at <= end
    ensures Sum(Window(h, end - window)) == OfferedIn(h, window, end - window)
    decreases |h|
  {
    if h != [] {
      var k := |h| - 1;
      SumIsOffered(h[..k], window, end);
      var last := if h[k].at < end - window then [] else [h[k]];
      SumConcat(Window(h[..k], end - window), last);
      assert last != [] ==> last[..0] == [];
    }
  }

  /** One addition or subtraction wraps at most once. */
  lemma AddWraps(sum: nat, packets: nat)
    requires packets < WRAP
    ensures Wrapped(sum + packets) == Add(Wrapped(sum), packets)
    ensures Sub(Wrapped(sum + packets), packets) == Wrapped(sum)
  {
    var r, q := sum % WRAP, sum / WRAP;
    assert sum + packets == q * WRAP + (r + packets);
    if r + packets >= WRAP {
      assert sum + packets == (q + 1) * WRAP + (r + packets - WRAP);
    }
  }

  /** The running total is the sum modulo 2^32. */
  lemma {:induction false} TotalIsSum(samples: seq<Sample>)
    requires Counts(samples)
    ensures Total(samples) == Wrapped(Sum(samples))
    decreases |samples|
  {
    if samples != [] {
      var k := |samples| - 1;
      TotalIsSum(samples[..k]);
      AddWraps(Sum(samples[..k]), samples[k].packets);
    }
  }

  lemma {:induction false} WindowCounts(h: seq<Sample>, cutoff: int)
    requires Counts(h)
    ensures Counts(Window(h, cutoff))
    decreases |h|
  {
    if h != [] { WindowCounts(h[..|h| - 1], cutoff); }
  }

  /** The computed rate is the offered load of the window modulo 2^32. */
  lemma {:induction false} RateIsOffered(h: seq<Sample>, window: int)
    requires h != [] && Forward(h) && Counts(h) && window >= 0
    ensures Rate(h, window) == Wrapped(Offered(h, window))
  {
    hide Window, Sum, Total, Retained, OfferedIn;
    RetainedIsWindow(h, window);
    WindowCounts(h, h[|h| - 1].at - window);
    TotalIsSum(Retained(h, window));
    SumIsOffered(h, window, h[|h| - 1].at);
  }

  function Min(a: int, b: int): int { if a < b then a else b }

  /** What was offered in the window of injection `k` ahead of it. */
  function Before(h: seq<Sample>, window: int, k: nat): nat
    requires k < |h|
  {
    OfferedIn(h[..k], window, h[k].at - window)
  }

  /** What the last injection may add to its window without passing the threshold. */
  function Share(h: seq<Sample>, window: int, threshold: nat): int
    requires h != []
  {
    var before := Before(h, window, |h| - 1);
    Min(before + h[|h| - 1].packets, threshold) - Min(before, threshold)
  }

  /** The wrap of the count does no harm: the load is below 2^32, or nothing is injected, or the
      wrapped load and the wrapped load before it still look too high. */
  predicate Harmless(h: seq<Sample>, window: int, threshold: nat)
    requires h != []
  {
    || Offered(h, window) < WRAP
    || h[|h| - 1].packets == 0
    || (Wrapped(Offered(h, window)) > threshold && Wrapped(Before(h, window, |h| - 1)) >= threshold)
  }

  /** An injection is admitted up to its share if and only if the wrap is harmless; otherwise more
      than its share gets through, and never less. */
  lemma {:induction false} AdmitsShareIff(h: seq<Sample>, window: int, threshold: nat)
    requires h != [] && Forward(h) && Counts(h) && window >= 0 && threshold < WRAP
    ensures Share(h, window, threshold) <= Accepted(h, window, threshold) <= h[|h| - 1].packets
    ensures Accepted(h, window, threshold) == Share(h, window, threshold) <==> Harmless(h, window, threshold)
  {
    hide Window, Sum, Rate, Before, Offered, Forward, Counts, Admit, Wrapped, Min;
    var before, packets := Before(h, window, |h| - 1), h[|h| - 1].packets;
    LastCount(h);
    RateIsOffered(h, window);
    OfferedSplits(h, window);
    AdmitsIff(before, packets, threshold);
  }

  lemma LastCount(h: seq<Sample>)
    requires h != [] && Counts(h)
    ensures h[|h| - 1].packets < WRAP
  {
  }

  lemma AdmitsIff(before: nat, packets: nat, threshold: nat)
    requires packets < WRAP && threshold < WRAP
    ensures var share, rate := Min(before + packets, threshold) - Min(before, threshold), Wrapped(before + packets);
            && share <= Admit(rate, packets, threshold) <= packets
            && (Admit(rate, packets, threshold) == share <==>
                  before + packets < WRAP || packets == 0 || (rate > threshold && Wrapped(before) >= threshold))
  {
    AddWraps(before, packets);
    AdmitFills(before, packets, threshold, Wrapped(before), Wrapped(before + packets));
  }

  lemma AdmitFills(before: nat, packets: nat, threshold: nat, was: nat, rate: nat)
    requires packets < WRAP && threshold < WRAP && was < WRAP
    requires rate == Add(was, packets) && Sub(rate, packets) == was
    requires (before < WRAP ==> was == before) && (before + packets < WRAP <==> before < WRAP && was + packets < WRAP)
    ensures var share := Min(before + packets, threshold) - Min(before, threshold);
            && share <= Admit(rate, packets, threshold) <= packets
            && (Admit(rate, packets, threshold) == share <==>
                  before + packets < WRAP || packets == 0 || (rate > threshold && was >= threshold))
  {
  }

  // ---------------------------------------------------------------- any interval

  /** What was accepted at times in `[from, from + window]`. */
  function AcceptedIn(h: seq<Sample>, accepted: seq<int>, window: int, from: int): int
    requires |accepted| == |h|
  {
    if h == [] then 0
    else
      var k := |h| - 1;
      AcceptedIn(h[..k], accepted[..k], window, from) + (if In(h[k], from, window) then accepted[k] else 0)
  }

  /** `accepted` is what the code lets through of each injection. */
  ghost predicate Policed(h: seq<Sample>, accepted: seq<int>, window: int, threshold: nat) {
    |accepted| == |h| && forall n :: 1 <= n <= |h| ==> accepted[n - 1] == Accepted(h[..n], window, threshold)
  }

  /** Every injection fills what is left of the window before it. */
  ghost predicate Fills(h: seq<Sample>, accepted: seq<int>, window: int, threshold: nat) {
    |accepted| == |h| && forall k :: 0 <= k < |h| ==>
      accepted[k] == Min(Before(h, window, k) + h[k].packets, threshold) - Min(Before(h, window, k), threshold)
  }

  ghost predicate AlwaysHarmless(h: seq<Sample>, window: int, threshold: nat) {
    forall n :: 1 <= n <= |h| ==> Harmless(h[..n], window, threshold)
  }

  /** Every injection of a run is admitted up to its share if and only if no wrap does harm. */
  lemma {:induction false} PolicedFillsIff(h: seq<Sample>, accepted: seq<int>, window: int, threshold: nat)
    requires Forward(h) && Counts(h) && window >= 0 && threshold < WRAP && Policed(h, accepted, window, threshold)
    ensures Fills(h, accepted, window, threshold) <==> AlwaysHarmless(h, window, threshold)
  {
    hide Harmless, Accepted;
    forall k | 0 <= k < |h|
      ensures accepted[k] == Min(Before(h, window, k) + h[k].packets, threshold) - Min(Before(h, window, k), threshold)
              <==> Harmless(h[..k + 1], window, threshold)
    {
      FillsAt(h, window, threshold, k);
      assert accepted[k + 1 - 1] == Accepted(h[..k + 1], window, threshold);
    }
    if Fills(h, accepted, window, threshold) {
      forall n | 1 <= n <= |h| ensures Harmless(h[..n], window, threshold) { assert n - 1 + 1 == n; }
    }
  }

  lemma {:induction false} FillsAt(h: seq<Sample>, window: int, threshold: nat, k: nat)
    requires Forward(h) && Counts(h) && window >= 0 && k < |h| && threshold < WRAP
    ensures var g := h[..k + 1];
            Accepted(g, window, threshold)
            == Min(Before(h, window, k) + h[k].packets, threshold) - Min(Before(h, window, k), threshold)
            <==> Harmless(g, window, threshold)
  {
    var g := h[..k + 1];
    assert |g| - 1 == k && g[..k] == h[..k] && g[k] == h[k];
    assert Before(g, window, k) == Before(h, window, k);
    AdmitsShareIff(g, window, threshold);
  }

  /** The part of an interval before an injection in it lies in the window of the injection. */
  lemma {:induction false} OfferedInWindow(h: seq<Sample>, window: int, from: int, end: int)
    requires end - window <= from && forall i :: 0 <= i < |h| ==> h[i].at <= end
    ensures OfferedIn(h, window, from) <= OfferedIn(h, window, end - window)
    decreases |h|
  {
    if h != [] { OfferedInWindow(h[..|h| - 1], window, from, end); }
  }

  /** The fuller the window already is, the less is admitted. */
  lemma FillLess(so: int, less: nat, more: nat, packets: nat, threshold: nat)
    requires less <= more && so <= Min(less, threshold)
    ensures so + (Min(more + packets, threshold) - Min(more, threshold)) <= Min(less + packets, threshold)
  {
  }

  lemma {:induction false} AcceptedAtMost(h: seq<Sample>, accepted: seq<int>, window: int, threshold: nat, from: int)
    requires Forward(h) && Fills(h, accepted, window, threshold)
    ensures AcceptedIn(h, accepted, window, from) <= Min(OfferedIn(h, window, from), threshold)
    decreases |h|
  {
    if h != [] {
      var k := |h| - 1;
      FillsPrefix(h, accepted, window, threshold);
      AcceptedAtMost(h[..k], accepted[..k], window, threshold, from);
      if In(h[k], from, window) {
        OfferedInWindow(h[..k], window, from, h[k].at);
        FillLess(AcceptedIn(h[..k], accepted[..k], window, from), OfferedIn(h[..k], window, from),
          Before(h, window, k), h[k].packets, threshold);
      }
    }
  }

  lemma FillsPrefix(h: seq<Sample>, accepted: seq<int>, window: int, threshold: nat)
    requires h != [] && Fills(h, accepted, window, threshold)
    ensures Fills(h[..|h| - 1], accepted[..|h| - 1], window, threshold)
  {
    var g := h[..|h| - 1];
    forall k | 0 <= k < |g| ensures Before(g, window, k) == Before(h, window, k) { assert g[..k] == h[..k]; }
  }

  /** In no interval as long as the window more than the threshold is accepted. */
  lemma {:induction false} NeverAboveThreshold(
    h: seq<Sample>, accepted: seq<int>, window: int, threshold: nat, from: int)
    requires Forward(h) && Counts(h) && window >= 0 && threshold < WRAP && Policed(h, accepted, window, threshold)
    requires AlwaysHarmless(h, window, threshold)
    ensures AcceptedIn(h, accepted, window, from) <= threshold
  {
    PolicedFillsIff(h, accepted, window, threshold);
    AcceptedAtMost(h, accepted, window, threshold, from);
  }

  lemma {:induction false} NothingOffered(h: seq<Sample>, window: int, from: int)
    requires forall i :: 0 <= i < |h| ==> h[i].at < from
    ensures OfferedIn(h, window, from) == 0
    decreases |h|
  {
    if h != [] { NothingOffered(h[..|h| - 1], window, from); }
  }

  /** After a pause longer than the window an injection is admitted up to the threshold. */
  lemma {:induction false} QuietPortAdmits(h: seq<Sample>, window: int, threshold: nat)
    requires h != [] && Forward(h) && Counts(h) && window >= 0 && threshold < WRAP
    requires forall i :: 0 <= i < |h| - 1 ==> h[i].at < h[|h| - 1].at - window
    ensures Accepted(h, window, threshold) == Min(h[|h| - 1].packets, threshold)
  {
    var k := |h| - 1;
    NothingOffered(h[..k], window, h[k].at - window);
    OfferedSplits(h, window);
    AdmitsShareIff(h, window, threshold);
  }

  // ------------------------------------------------------------- when the count wraps

  /** The largest injection, `n` times at one instant. */
  function Burst(n: nat): (h: seq<Sample>)
    ensures |h| == n && forall i :: 0 <= i < n ==> h[i] == Sample(0, MAX_STORM_PACKETS)
  {
    if n == 0 then [] else Burst(n - 1) + [Sample(0, MAX_STORM_PACKETS)]
  }

  lemma BurstSnoc(n: nat)
    requires n > 0
    ensures Burst(n)[..n - 1] == Burst(n - 1) && Burst(n)[n - 1] == Sample(0, MAX_STORM_PACKETS)
  {
  }

  lemma {:induction false} BurstWindow(n: nat, window: int)
    requires window >= 0
    ensures Window(Burst(n), 0 - window) == Burst(n)
    decreases n
  {
    if n > 0 {
      BurstSnoc(n);
      BurstWindow(n - 1, window);
    }
  }

  lemma {:induction false} BurstSums(n: nat)
    requires n <= 4295
    ensures Sum(Burst(n)) == n * MAX_STORM_PACKETS
    ensures Total(Burst(n)) == if n < 4295 then n * MAX_STORM_PACKETS else n * MAX_STORM_PACKETS - WRAP
    decreases n
  {
    if n > 0 {
      BurstSnoc(n);
      BurstSums(n - 1);
    }
  }

  /** A load that passes 2^32 within one window is counted as a small one: a whole injection of a
      million packets goes through under a threshold of fifty thousand. */
  lemma {:induction false} WrappedLoadPasses(n: nat, window: int)
    requires n == 4295 && window >= 0
    ensures Forward(Burst(n)) && Counts(Burst(n)) && Offered(Burst(n), window) >= WRAP
    ensures Accepted(Burst(n), window, 50_000) == 1_000_000 && Share(Burst(n), window, 50_000) == 0
    ensures !Harmless(Burst(n), window, 50_000)
  {
    hide Burst, Window, Sum, Total, Retained, OfferedIn;
    var h := Burst(n);
    BurstLoad(n, window);
    OfferedSplits(h, window);
    assert Before(h, window, |h| - 1) == Offered(h, window) - 1_000_000;
    AdmitsShareIff(h, window, 50_000);
  }

  lemma {:induction false} BurstLoad(n: nat, window: int)
    requires 0 < n <= 4295 && window >= 0
    ensures Offered(Burst(n), window) == n * MAX_STORM_PACKETS && Rate(Burst(n), window) == Total(Burst(n))
    ensures Total(Burst(n)) == if n < 4295 then n * MAX_STORM_PACKETS else 32_704
  {
    hide Burst, Window, Sum, Total, Retained, OfferedIn;
    var h := Burst(n);
    BurstWindow(n, window);
    BurstSums(n);
    RetainedIsWindow(h, window);
    SumIsOffered(h, window, 0);
    assert h[|h| - 1].at - window == 0 - window;
  }
}

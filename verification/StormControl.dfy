/** The storm injector of internal/l2/storm.go on one port, with its window and alarm. */
module StormControl {
  import opened Wrappers
  import opened Storm

  datatype StormError = TooLarge

  /** What one injection did to the port's counters, and the alarm event it published, if any. */
  datatype Verdict = Verdict(accepted: int, discarded: int, published: Option<bool>)

  /** What is kept for a port fits what was injected on it and what was let through. */
  ghost predicate PortOk(
    samples: seq<Sample>, alarm: bool, history: seq<Sample>, accepted: seq<int>, window: int, threshold: nat) {
    && samples == Retained(history, window) && Counts(history) && Policed(history, accepted, window, threshold)
    && (alarm <==> history != [] && Rate(history, window) > threshold)
  }

  /** The samples before the cutoff are dropped, all others stay, and one is added. */
  ghost predicate Slides(before: seq<Sample>, cutoff: int, added: Sample, after: seq<Sample>) {
    forall x :: multiset(after)[x] ==
      (if x.at < cutoff then 0 else multiset(before)[x]) + (if x == added then 1 else 0)
  }

  lemma KeptAndAdded(before: seq<Sample>, cutoff: int, added: Sample)
    ensures Slides(before, cutoff, added, Window(before, cutoff) + [added])
  {
    forall x ensures multiset(Window(before, cutoff) + [added])[x] ==
      (if x.at < cutoff then 0 else multiset(before)[x]) + (if x == added then 1 else 0)
    {
      WindowKeeps(before, cutoff, x);
    }
  }

  /** The port's state after one more injection. */
  lemma {:induction false} PortStep(
    samples: seq<Sample>, alarm: bool, history: seq<Sample>, accepted: seq<int>, window: int, threshold: nat,
    s: Sample)
    requires PortOk(samples, alarm, history, accepted, window, threshold) && s.packets < WRAP
    ensures var kept := Window(samples, s.at - window) + [s];
            && Total(kept) == Rate(history + [s], window)
            && PortOk(kept, Total(kept) > threshold, history + [s],
               accepted + [Admit(Total(kept), s.packets, threshold)], window, threshold)
  {
    var h := history + [s];
    assert h[..|history|] == history;
    assert Window(samples, s.at - window) + [s] == Retained(h, window);
    PolicedSnoc(history, accepted, window, threshold, s, Accepted(h, window, threshold));
  }

  /** With a clock that does not run backwards, the alarm stands exactly while the load of the last
      window, as counted, is above the threshold. */
  lemma AlarmIff(
    samples: seq<Sample>, alarm: bool, history: seq<Sample>, accepted: seq<int>, window: int, threshold: nat)
    requires PortOk(samples, alarm, history, accepted, window, threshold)
    requires history != [] && Forward(history) && window >= 0
    ensures alarm <==> Wrapped(Offered(history, window)) > threshold
  {
    RateIsOffered(history, window);
  }

  lemma PolicedSnoc(h: seq<Sample>, accepted: seq<int>, window: int, threshold: nat, s: Sample, a: int)
    requires Policed(h, accepted, window, threshold) && a == Accepted(h + [s], window, threshold)
    ensures Policed(h + [s], accepted + [a], window, threshold)
  {
    var g := h + [s];
    forall n | 1 <= n <= |g| ensures (accepted + [a])[n - 1] == Accepted(g[..n], window, threshold) {
      if n <= |h| { assert g[..n] == h[..n]; } else { assert g[..n] == g; }
    }
  }

  /** The loop of `recordStorm`: the samples not before the cutoff, and their sum in uint32. */
  method KeepRecent(samples: seq<Sample>, cutoff: int) returns (kept: seq<Sample>, sum: int)
    ensures kept == Window(samples, cutoff) && sum == Total(kept)
  {
    kept, sum := [], 0;
    for i := 0 to |samples|
      invariant kept == Window(samples[..i], cutoff) && sum == Total(kept)
    {
      WindowSnoc(samples, i, cutoff);
      TotalSnoc(kept, samples[i]);
      if samples[i].at >= cutoff {
        kept := kept + [samples[i]];
        sum := Add(sum, samples[i].packets);
      }
    }
    assert samples[..|samples|] == samples;
  }

  /** The injector's entry for one port: its sample window and its alarm. */
  class Policer {
    var samples: seq<Sample>
    var alarm: bool
    const threshold: nat
    const window: int
    /** Every injection so far, and what was let through of each. */
    ghost var history: seq<Sample>
    ghost var accepted: seq<int>

    ghost predicate Valid()
      reads this
    {
      PortOk(samples, alarm, history, accepted, window, threshold)
    }

    constructor (threshold: nat, window: int)
      requires threshold < WRAP && window > 0
      ensures Valid() && history == [] && accepted == [] && this.threshold == threshold && this.window == window
    {
      this.threshold, this.window := threshold, window;
      samples, alarm, history, accepted := [], false, [], [];
    }

    /** `recordStorm`. */
    method RecordStorm(now: int, packets: nat) returns (rate: int)
      modifies this`samples
      ensures samples == Window(old(samples), now - window) + [Sample(now, packets)]
      ensures Slides(old(samples), now - window, Sample(now, packets), samples)
      ensures rate == Total(samples)
    {
      hide Slides, Window, Total;
      var kept, sum := KeepRecent(samples, now - window);
      TotalSnoc(kept, Sample(now, packets));
      KeptAndAdded(samples, now - window, Sample(now, packets));
      rate := Add(sum, packets);
      samples := kept + [Sample(now, packets)];
    }

    /** `reportStorm`: an event exactly when the alarm changes. */
    method ReportStorm(storming: bool) returns (published: Option<bool>)
      modifies this`alarm
      ensures alarm == storming && published == if old(alarm) == storming then None else Some(storming)
    {
      if alarm == storming { return None; }
      alarm := storming;
      return Some(storming);
    }

    /** Storm control: keep what fits, drop the rest. */
    method Divide(rate: int, packets: nat) returns (admitted: int, discarded: int)
      ensures admitted == Admit(rate, packets, threshold) && admitted + discarded == packets
    {
      var storming := rate > threshold;
      admitted, discarded := packets, 0;
      if storming && Sub(rate, packets) < threshold {
        admitted := threshold - Sub(rate, packets);
        discarded := packets - admitted;
      } else if storming {
        admitted, discarded := 0, packets;
      }
    }

    /** `Storm` on a known port. */
    method Inject(packets: nat, now: int) returns (r: Result<Verdict, StormError>)
      requires Valid()
      modifies this
      ensures Valid()
      ensures r.Err? <==> packets > 1_000_000
      ensures packets == 0 || r.Err? ==>
              samples == old(samples) && alarm == old(alarm) && history == old(history) && accepted == old(accepted)
      ensures packets == 0 ==> r == Ok(Verdict(0, 0, None))
      ensures packets > 0 && r.Ok? ==>
        && history == old(history) + [Sample(now, packets)] && accepted == old(accepted) + [r.value.accepted]
        && r.value.accepted + r.value.discarded == packets
        && r.value.published == if old(alarm) == alarm then None else Some(alarm)
    {
      hide PortOk, Policed, Admit, Window, Total, Rate;
      if packets == 0 { return Ok(Verdict(0, 0, None)); }
      if packets > MAX_STORM_PACKETS { return Err(TooLarge); }
      PortStep(samples, alarm, history, accepted, window, threshold, Sample(now, packets));
      var rate := RecordStorm(now, packets);
      var admitted, discarded := Divide(rate, packets);
      history, accepted := history + [Sample(now, packets)], accepted + [admitted];
      var published := ReportStorm(rate > threshold);
      r := Ok(Verdict(admitted, discarded, published));
    }
  }
}

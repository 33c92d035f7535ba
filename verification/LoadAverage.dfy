/** ssrv_t's load average: requests are remembered by the time they came and forgotten from the front
    (libamt/mtdispatch.C:682-708). */
module LoadAverage {
  /** struct timespec, normalised. */
  datatype Timespec = Timespec(sec: int, nsec: int)

  const BILLION := 1_000_000_000

  predicate Normal(t: Timespec) {
    0 <= t.nsec < BILLION
  }

  function Nanos(t: Timespec): int {
    t.sec * BILLION + t.nsec
  }

  /** tsdiff: exactly whether ts2 is more than diff seconds after ts1. */
  predicate TsDiff(ts1: Timespec, ts2: Timespec, diff: int): (r: bool)
    requires Normal(ts1) && Normal(ts2)
    ensures r <==> Nanos(ts2) - Nanos(ts1) > diff * BILLION
  {
    var sd := ts2.sec - ts1.sec;
    sd > diff || (sd == diff && ts2.nsec > ts1.nsec)
  }

  predicate Ordered(times: seq<Timespec>) {
    && (forall i :: 0 <= i < |times| ==> Normal(times[i]))
    && forall i, j :: 0 <= i < j < |times| ==> Nanos(times[i]) <= Nanos(times[j])
  }

  /** Those of the times that are no older than interval seconds now. */
  function Recent(times: seq<Timespec>, now: Timespec, interval: int): seq<Timespec>
    requires Normal(now) && forall i :: 0 <= i < |times| ==> Normal(times[i])
  {
    if |times| == 0 then []
    else (if TsDiff(times[0], now, interval) then [] else [times[0]]) + Recent(times[1..], now, interval)
  }

  lemma {:induction false} RecentSnoc(times: seq<Timespec>, t: Timespec, now: Timespec, interval: int)
    requires Normal(now) && Normal(t) && forall i :: 0 <= i < |times| ==> Normal(times[i])
    ensures Recent(times + [t], now, interval) == Recent(times, now, interval) + Recent([t], now, interval)
  {
    if |times| > 0 {
      assert (times + [t])[1..] == times[1..] + [t];
      RecentSnoc(times[1..], t, now, interval);
    }
  }

  lemma {:induction false} RecentIsNormal(times: seq<Timespec>, now: Timespec, interval: int)
    requires Normal(now) && Ordered(times)
    ensures Ordered(Recent(times, now, interval))
    ensures forall t :: t in Recent(times, now, interval) ==> t in times
  {
    if |times| > 0 {
      RecentIsNormal(times[1..], now, interval);
      var rest := Recent(times[1..], now, interval);
      forall j | 0 <= j < |rest|
        ensures Nanos(times[0]) <= Nanos(rest[j])
      {
        assert rest[j] in times[1..];
      }
    }
  }

  /** Recent keeps each time as often as it was there if it is no older than the interval, and no other. */
  lemma {:induction false} RecentIs(times: seq<Timespec>, now: Timespec, interval: int, t: Timespec)
    requires Normal(now) && forall i :: 0 <= i < |times| ==> Normal(times[i])
    ensures multiset(Recent(times, now, interval))[t] ==
      if Nanos(now) - Nanos(t) <= interval * BILLION then multiset(times)[t] else 0
  {
    if |times| > 0 {
      RecentIs(times[1..], now, interval, t);
      assert times == [times[0]] + times[1..];
      var kept := Recent(times, now, interval);
      if !TsDiff(times[0], now, interval) {
        assert multiset(kept) == multiset{times[0]} + multiset(Recent(times[1..], now, interval));
      } else {
        assert kept == Recent(times[1..], now, interval);
      }
      assert multiset(times) == multiset{times[0]} + multiset(times[1..]);
    }
  }

  /** kept are the times no older than the interval, each as often as in times. */
  ghost predicate KeepsRecent(times: seq<Timespec>, kept: seq<Timespec>, now: Timespec, interval: int) {
    forall t :: multiset(kept)[t] == (if Nanos(now) - Nanos(t) <= interval * BILLION then multiset(times)[t] else 0)
  }

  lemma RecentKeeps(times: seq<Timespec>, now: Timespec, interval: int)
    requires Normal(now) && forall i :: 0 <= i < |times| ==> Normal(times[i])
    ensures KeepsRecent(times, Recent(times, now, interval), now, interval)
  {
    forall t
      ensures multiset(Recent(times, now, interval))[t] ==
        (if Nanos(now) - Nanos(t) <= interval * BILLION then multiset(times)[t] else 0)
    {
      RecentIs(times, now, interval, t);
    }
  }

  lemma OrderedSnoc(times: seq<Timespec>, t: Timespec)
    requires Ordered(times) && Normal(t) && (|times| > 0 ==> Nanos(times[|times| - 1]) <= Nanos(t))
    ensures Ordered(times + [t])
  {
  }

  /** What is not recent stays so as the clock goes on. */
  lemma {:induction false} RecentLater(times: seq<Timespec>, earlier: Timespec, now: Timespec, interval: int)
    requires Normal(earlier) && Normal(now) && Nanos(earlier) <= Nanos(now) && Ordered(times)
    ensures Ordered(Recent(times, earlier, interval))
    ensures Recent(Recent(times, earlier, interval), now, interval) == Recent(times, now, interval)
  {
    RecentIsNormal(times, earlier, interval);
    if |times| > 0 {
      RecentLater(times[1..], earlier, now, interval);
      var rest := Recent(times[1..], earlier, interval);
      if TsDiff(times[0], earlier, interval) {
        assert TsDiff(times[0], now, interval) && Recent(times, earlier, interval) == rest;
        assert Recent(times, now, interval) == Recent(times[1..], now, interval);
      } else {
        var kept := Recent(times, earlier, interval);
        assert kept == [times[0]] + rest && kept[1..] == rest;
      }
    }
  }

  /** In order of time, all are recent if the first is. */
  lemma {:induction false} AllRecent(times: seq<Timespec>, now: Timespec, interval: int)
    requires Normal(now) && Ordered(times)
    requires |times| > 0 ==> !TsDiff(times[0], now, interval)
    ensures Recent(times, now, interval) == times
  {
    if |times| > 0 {
      AllRecent(times[1..], now, interval);
    }
  }

  class ReqTimes {
    const interval: int           // ok_amt_lasi
    var reqtimes: seq<Timespec>
    var loadAvg: nat
    ghost var past: seq<Timespec> // every request so far

    ghost predicate Valid()
      reads this
    {
      && Ordered(past)
      && reqtimes == (if |past| == 0 then [] else Recent(past, past[|past| - 1], interval))
      && loadAvg == |reqtimes|
    }

    constructor (interval: int)
      ensures Valid() && past == []
    {
      this.interval, reqtimes, loadAvg, past := interval, [], 0, [];
    }

    /** What was kept at the last request serves as well as all that came. */
    lemma KeptIsEnough(before: seq<Timespec>, now: Timespec)
      requires Ordered(before) && Normal(now) && (|before| > 0 ==> Nanos(before[|before| - 1]) <= Nanos(now))
      ensures Ordered(before + [now])
      ensures var kept := if |before| == 0 then [] else Recent(before, before[|before| - 1], interval);
        && Ordered(kept + [now])
        && Recent(kept + [now], now, interval) == Recent(before + [now], now, interval)
    {
      OrderedSnoc(before, now);
      if |before| > 0 {
        var last := before[|before| - 1];
        var kept := Recent(before, last, interval);
        RecentIsNormal(before, last, interval);
        if |kept| > 0 {
          assert kept[|kept| - 1] in before;
        }
        OrderedSnoc(kept, now);
        RecentSnoc(before, now, now, interval);
        RecentSnoc(kept, now, now, interval);
        RecentLater(before, last, now, interval);
      }
    }

    /** The loop of req_made. */
    method Forget(now: Timespec)
      requires Ordered(reqtimes) && Normal(now)
      modifies `reqtimes
      ensures reqtimes == Recent(old(reqtimes), now, interval)
    {
      while |reqtimes| > 0 && TsDiff(reqtimes[0], now, interval)
        invariant Ordered(reqtimes) && Recent(reqtimes, now, interval) == Recent(old(reqtimes), now, interval)
        decreases |reqtimes|
      {
        reqtimes := reqtimes[1..];
      }
      AllRecent(reqtimes, now, interval);
    }

    /** req_made, for a clock that does not go back: the load average is the number of all requests so far that are
        no older than the interval. */
    method ReqMade(now: Timespec)
      requires Valid() && Normal(now) && (|past| > 0 ==> Nanos(past[|past| - 1]) <= Nanos(now))
      modifies this
      ensures Valid() && past == old(past) + [now]
      ensures loadAvg == |reqtimes| && KeepsRecent(past, reqtimes, now, interval)
    {
      hide Recent, Ordered, KeepsRecent;
      KeptIsEnough(past, now);
      past := past + [now];
      reqtimes := reqtimes + [now];
      Forget(now);
      loadAvg := |reqtimes|;
      RecentAll(past, now);
    }

    lemma RecentAll(times: seq<Timespec>, now: Timespec)
      requires Ordered(times) && Normal(now)
      ensures KeepsRecent(times, Recent(times, now, interval), now, interval)
    {
      RecentKeeps(times, now, interval);
    }
  }
}

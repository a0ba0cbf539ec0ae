/** The sliding-window rate limiter of internal/middleware/ratelimit.go.

    Times and durations are nanosecond counts.  `Admit` says what one call does to the
    list kept for a key; `Limiter` is the mutable object, which prunes that list in the
    backing array it already has.  The whole-run results are in `LimiterRuns`. */
module LimiterSpec {

  const SECOND := 1_000_000_000

  datatype Verdict = Allowed | Denied(retry: int)

  /** The events strictly after the cutoff, in order. */
  function Prune(events: seq<int>, cutoff: int): (kept: seq<int>)
    ensures |kept| <= |events|
  {
    if events == [] then []
    else
      var rest := Prune(events[..|events| - 1], cutoff);
      var last := events[|events| - 1];
      if last > cutoff then rest + [last] else rest
  }

  /** One call for a key whose list is `events`: the new list and the answer. */
  function Admit(events: seq<int>, now: int, limit: int, window: int): (r: (seq<int>, Verdict))
    requires limit >= 1
  {
    var kept := Prune(events, now - window);
    if |kept| >= limit then
      var wait := kept[0] + window - now;
      (kept, Denied(if wait < SECOND then SECOND else wait))
    else
      (kept + [now], Allowed)
  }

  /** What is kept: exactly the events after the cutoff. */
  lemma {:induction false} PruneMembers(events: seq<int>, cutoff: int, t: int)
    ensures t in Prune(events, cutoff) <==> t in events && t > cutoff
  {
    if events != [] {
      var n := |events| - 1;
      PruneMembers(events[..n], cutoff, t);
      assert events == events[..n] + [events[n]];
    }
  }

  /** As often as before, when after the cutoff. */
  lemma {:induction false} PruneCounts(events: seq<int>, cutoff: int, t: int)
    ensures multiset(Prune(events, cutoff))[t] == if t > cutoff then multiset(events)[t] else 0
  {
    if events != [] {
      var n := |events| - 1;
      PruneCounts(events[..n], cutoff, t);
      assert events == events[..n] + [events[n]];
    }
  }

  /** And in the same order: pruning goes through the list piece by piece. */
  lemma {:induction false} PruneConcat(a: seq<int>, b: seq<int>, cutoff: int)
    ensures Prune(a + b, cutoff) == Prune(a, cutoff) + Prune(b, cutoff)
  {
    if b == [] {
      assert a + b == a;
    } else {
      var front, last := b[..|b| - 1], b[|b| - 1];
      LastApart(a, b);
      PruneConcat(a, front, cutoff);
      PruneSnoc(a + front, last, cutoff);
      PruneSnoc(front, last, cutoff);
    }
  }

  lemma LastApart(a: seq<int>, b: seq<int>)
    requires b != []
    ensures b[..|b| - 1] + [b[|b| - 1]] == b && a + b == a + b[..|b| - 1] + [b[|b| - 1]]
  {
  }

  lemma PruneSnoc(events: seq<int>, t: int, cutoff: int)
    ensures Prune(events + [t], cutoff) == Prune(events, cutoff) + (if t > cutoff then [t] else [])
  {
    assert (events + [t])[..|events|] == events;
  }

  /** Pruning twice is pruning once at the later cutoff. */
  lemma {:induction false} PruneTwice(events: seq<int>, c: int, d: int)
    ensures Prune(Prune(events, c), d) == Prune(events, if c < d then d else c)
  {
    if events != [] {
      var front, last := events[..|events| - 1], events[|events| - 1];
      PruneTwice(front, c, d);
      if last > c {
        PruneSnoc(Prune(front, c), last, d);
      }
    }
  }

  /** Nothing to prune: the list is unchanged. */
  lemma {:induction false} PruneNothing(events: seq<int>, c: int)
    requires forall k :: 0 <= k < |events| ==> events[k] > c
    ensures Prune(events, c) == events
  {
    if events != [] {
      var front, last := events[..|events| - 1], events[|events| - 1];
      assert events == front + [last];
      PruneNothing(front, c);
    }
  }

  /** A cutoff that drops some element leaves a shorter list. */
  lemma {:induction false} PruneSomething(events: seq<int>, c: int, k: nat)
    requires k < |events| && events[k] <= c
    ensures |Prune(events, c)| < |events|
  {
    if k < |events| - 1 {
      PruneSomething(events[..|events| - 1], c, k);
    }
  }

  lemma {:induction false} PruneAll(events: seq<int>, c: int)
    requires forall k :: 0 <= k < |events| ==> events[k] <= c
    ensures Prune(events, c) == []
  {
    if events != [] {
      PruneAll(events[..|events| - 1], c);
    }
  }

  ghost predicate Sorted(s: seq<int>) {
    forall i, j :: 0 <= i < j < |s| ==> s[i] <= s[j]
  }

  lemma {:induction false} PruneSorted(events: seq<int>, c: int)
    requires Sorted(events)
    ensures Sorted(Prune(events, c))
  {
    if events != [] {
      var front, last := events[..|events| - 1], events[|events| - 1];
      PruneSorted(front, c);
      var kept := Prune(front, c);
      forall i | 0 <= i < |kept| ensures kept[i] <= last {
        assert kept[i] in kept;
        PruneMembers(front, c, kept[i]);
      }
    }
  }
}

/** The limiter object. */
module RateLimiter {
  import opened LimiterSpec

  /** A slice: a backing array and the length in use. */
  datatype Slice = Slice(buf: array<int>, len: nat)

  class Limiter {
    const limit: int
    const window: int
    var events: map<string, Slice>

    ghost function Buffers(): set<array<int>>
      reads this
    {
      set k | k in events :: events[k].buf
    }

    /** Every key has its own backing array: pruning one key in place cannot disturb another. */
    ghost predicate Valid()
      reads this, Buffers()
    {
      && limit >= 1
      && (forall k <- events :: events[k].len <= events[k].buf.Length)
      && (forall j, k :: j in events && k in events && j != k ==> events[j].buf != events[k].buf)
    }

    /** What the object stores for a key. */
    ghost function EventsOf(key: string): seq<int>
      reads this, Buffers()
      requires Valid()
    {
      if key in events then events[key].buf[..events[key].len] else []
    }

    constructor (limit: int, window: int)
      requires limit >= 1
      ensures Valid() && this.limit == limit && this.window == window
      ensures forall key :: key !in events && EventsOf(key) == []
    {
      this.limit := limit;
      this.window := window;
      events := map[];
    }

    /** The backing array of a key, if it has one yet. */
    ghost function Own(key: string): set<array<int>>
      reads this
    {
      if key in events then {events[key].buf} else {}
    }

    method Allow(key: string, now: int) returns (verdict: Verdict)
      requires Valid()
      modifies this, Own(key)
      ensures Valid() && key in events && fresh(Own(key) - old(Own(key)))
      ensures (EventsOf(key), verdict) == Admit(old(EventsOf(key)), now, limit, window)
      ensures events.Keys == old(events.Keys) + {key}
      ensures forall k :: k != key ==> EventsOf(k) == old(EventsOf(k))
    {
      var slice;
      if key in events {
        slice := events[key];
      } else {
        var empty := new int[0];
        slice := Slice(empty, 0);
      }
      var admitted;
      admitted, verdict := AdmitSlice(slice, now, limit, window);
      events := events[key := admitted];
    }
  }

  /** One call on the slice of one key. */
  method AdmitSlice(s: Slice, now: int, limit: int, window: int) returns (r: Slice, verdict: Verdict)
    requires limit >= 1 && s.len <= s.buf.Length
    modifies s.buf
    ensures r.len <= r.buf.Length && (r.buf == s.buf || fresh(r.buf))
    ensures (r.buf[..r.len], verdict) == Admit(old(s.buf[..s.len]), now, limit, window)
  {
    var kept := PruneInPlace(s, now - window);
    r := Slice(s.buf, kept);
    if kept >= limit {
      var retry := s.buf[0] + window - now;
      if retry < SECOND {
        retry := SECOND;
      }
      verdict := Denied(retry);
    } else {
      r := Append(r, now);
      verdict := Allowed;
    }
  }

  /** Compacts the slice in its own array: element `r` is read before position `w <= r` is written. */
  method PruneInPlace(s: Slice, cutoff: int) returns (w: nat)
    requires s.len <= s.buf.Length
    modifies s.buf
    ensures w <= s.len
    ensures s.buf[..w] == Prune(old(s.buf[..s.len]), cutoff)
  {
    w := 0;
    ghost var was := s.buf[..s.len];
    for r := 0 to s.len
      invariant w <= r
      invariant s.buf[..w] == Prune(was[..r], cutoff)
      invariant s.buf[r..s.len] == was[r..]
    {
      var t := s.buf[r];
      assert t == s.buf[r..s.len][0] == was[r];
      assert was[..r + 1][..r] == was[..r];
      assert s.buf[r + 1..s.len] == s.buf[r..s.len][1..] == was[r + 1..];
      if t > cutoff {
        s.buf[w] := t;
        w := w + 1;
      }
    }
    assert was[..s.len] == was;
  }

  /** Appends in place when there is room, and moves to a larger array when there is not. */
  method Append(s: Slice, x: int) returns (r: Slice)
    requires s.len <= s.buf.Length
    modifies s.buf
    ensures r.len == s.len + 1 <= r.buf.Length
    ensures r.buf == s.buf || fresh(r.buf)
    ensures r.buf[..r.len] == old(s.buf[..s.len]) + [x]
  {
    if s.len < s.buf.Length {
      s.buf[s.len] := x;
      r := Slice(s.buf, s.len + 1);
    } else {
      var bigger := new int[2 * s.len + 1];
      for i := 0 to s.len
        invariant bigger[..i] == s.buf[..i]
        invariant fresh(bigger) && unchanged(s.buf)
      {
        bigger[i] := s.buf[i];
      }
      bigger[s.len] := x;
      r := Slice(bigger, s.len + 1);
    }
  }
}

/** One key at a time: the list the limiter keeps after calls at `times`, and the complete log of the
    calls it allowed. */
module OneKey {
  import opened LimiterSpec

  function Kept(times: seq<int>, limit: int, window: int): seq<int>
    requires limit >= 1
  {
    if times == [] then []
    else
      var n := |times| - 1;
      Admit(Kept(times[..n], limit, window), times[n], limit, window).0
  }

  function Answer(times: seq<int>, now: int, limit: int, window: int): Verdict
    requires limit >= 1
  {
    Admit(Kept(times, limit, window), now, limit, window).1
  }

  /** The time of every allowed call, nothing ever forgotten. */
  function Log(times: seq<int>, limit: int, window: int): seq<int>
    requires limit >= 1
  {
    if times == [] then []
    else
      var n := |times| - 1;
      Extended(Log(times[..n], limit, window), times[n], Answer(times[..n], times[n], limit, window).Allowed?)
  }

  function Extended(log: seq<int>, now: int, allowed: bool): seq<int> {
    if allowed then log + [now] else log
  }

  /** The reference limiter: it never forgets, and counts its whole log at every call. */
  function ReferenceLog(times: seq<int>, limit: int, window: int): seq<int> {
    if times == [] then []
    else
      var n := |times| - 1;
      var log := ReferenceLog(times[..n], limit, window);
      Extended(log, times[n], |Prune(log, times[n] - window)| < limit)
  }

  /** How many logged times fall in (t - window, t]. */
  function InWindow(log: seq<int>, t: int, window: int): nat {
    if log == [] then 0
    else
      var n := |log| - 1;
      InWindow(log[..n], t, window) + (if t - window < log[n] <= t then 1 else 0)
  }

  lemma Snoc(times: seq<int>, now: int, limit: int, window: int)
    requires limit >= 1
    ensures var r := Admit(Kept(times, limit, window), now, limit, window);
            && Kept(times + [now], limit, window) == r.0
            && Log(times + [now], limit, window)
               == (if r.1.Allowed? then Log(times, limit, window) + [now] else Log(times, limit, window))
  {
    assert (times + [now])[..|times|] == times;
  }

  lemma InWindowSnoc(log: seq<int>, x: int, t: int, window: int)
    ensures InWindow(log + [x], t, window) == InWindow(log, t, window) + (if t - window < x <= t then 1 else 0)
  {
    assert (log + [x])[..|log|] == log;
  }

  // ----- Refinement -----

  lemma AdmitLooksLike(kept: seq<int>, now: int, d: int, limit: int, window: int)
    requires limit >= 1 && now - window <= d
    ensures var r := Admit(kept, now, limit, window);
            Prune(r.0, d) == Prune(kept, d) + (if r.1.Allowed? && now > d then [now] else [])
  {
    PruneTwice(kept, now - window, d);
    PruneSnoc(Prune(kept, now - window), now, d);
  }

  /** At any cutoff that no earlier call has gone past, the kept list and the log look alike. */
  lemma {:induction false} KeptLooksLikeLog(times: seq<int>, d: int, limit: int, window: int)
    requires limit >= 1
    requires forall k :: 0 <= k < |times| ==> times[k] - window <= d
    ensures Prune(Kept(times, limit, window), d) == Prune(Log(times, limit, window), d)
  {
    if times != [] {
      var n := |times| - 1;
      var front, now := times[..n], times[n];
      KeptLooksLikeLog(front, d, limit, window);
      var kept, log := Kept(front, limit, window), Log(front, limit, window);
      var r := Admit(kept, now, limit, window);
      AdmitLooksLike(kept, now, d, limit, window);
      if r.1.Allowed? {
        PruneSnoc(log, now, d);
      } else {
        assert Log(times, limit, window) == log;
      }
    }
  }

  /** The limiter that forgets allows exactly the calls that the reference limiter allows. */
  lemma {:induction false} RefinesReference(times: seq<int>, limit: int, window: int)
    requires limit >= 1 && Sorted(times)
    ensures Log(times, limit, window) == ReferenceLog(times, limit, window)
  {
    if times != [] {
      var front, now := times[..|times| - 1], times[|times| - 1];
      SortedFront(times);
      RefinesReference(front, limit, window);
      KeptLooksLikeLog(front, now - window, limit, window);
      RefinesOnce(times, limit, window);
    }
  }

  lemma SortedFront(times: seq<int>)
    requires times != [] && Sorted(times)
    ensures var front := times[..|times| - 1];
            Sorted(front) && forall k :: 0 <= k < |front| ==> front[k] <= times[|times| - 1]
  {
  }

  lemma RefinesOnce(times: seq<int>, limit: int, window: int)
    requires limit >= 1 && times != []
    requires var front, d := times[..|times| - 1], times[|times| - 1] - window;
             && Log(front, limit, window) == ReferenceLog(front, limit, window)
             && Prune(Kept(front, limit, window), d) == Prune(Log(front, limit, window), d)
    ensures Log(times, limit, window) == ReferenceLog(times, limit, window)
  {
    var front, now := times[..|times| - 1], times[|times| - 1];
    SameVerdict(Kept(front, limit, window), Log(front, limit, window), now, limit, window);
  }

  lemma SameVerdict(kept: seq<int>, log: seq<int>, now: int, limit: int, window: int)
    requires limit >= 1 && Prune(kept, now - window) == Prune(log, now - window)
    ensures Admit(kept, now, limit, window).1.Allowed? <==> |Prune(log, now - window)| < limit
  {
  }

  /** Counting the complete log leaves room for one more call. */
  predicate FitsFullLog(times: seq<int>, now: int, limit: int, window: int) {
    |Prune(ReferenceLog(times, limit, window), now - window)| < limit
  }

  lemma DecidesAsReference(times: seq<int>, now: int, limit: int, window: int)
    requires limit >= 1 && Sorted(times + [now])
    ensures Answer(times, now, limit, window).Allowed? <==> FitsFullLog(times, now, limit, window)
  {
    SortedPrefix(times, [now]);
    RefinesReference(times, limit, window);
    forall k | 0 <= k < |times| ensures times[k] - window <= now - window {
      assert (times + [now])[k] <= (times + [now])[|times|];
    }
    KeptLooksLikeLog(times, now - window, limit, window);
  }

  // ----- The rolling window -----

  /** A window that ends at or after `now` holds no more of the log than the cutoff of `now` keeps. */
  lemma {:induction false} WindowWithinPrune(log: seq<int>, now: int, t: int, window: int)
    requires t >= now
    ensures InWindow(log, t, window) <= |Prune(log, now - window)|
  {
    if log != [] {
      WindowWithinPrune(log[..|log| - 1], now, t, window);
    }
  }

  /** The reference limiter respects the bound whatever the clock does. */
  lemma {:induction false} ReferenceBounded(times: seq<int>, t: int, limit: int, window: int)
    requires limit >= 1
    ensures InWindow(ReferenceLog(times, limit, window), t, window) <= limit
  {
    if times != [] {
      var front, now := times[..|times| - 1], times[|times| - 1];
      var log := ReferenceLog(front, limit, window);
      ReferenceBounded(front, t, limit, window);
      LoggedBounded(log, now, t, limit, window);
      assert ReferenceLog(times, limit, window) == Extended(log, now, |Prune(log, now - window)| < limit);
    }
  }

  lemma LoggedBounded(log: seq<int>, now: int, t: int, limit: int, window: int)
    requires InWindow(log, t, window) <= limit
    ensures InWindow(Extended(log, now, |Prune(log, now - window)| < limit), t, window) <= limit
  {
    InWindowSnoc(log, now, t, window);
    if now <= t {
      WindowWithinPrune(log, now, t, window);
    }
  }

  // ----- Clocks that run backwards -----

  ghost predicate Apart(log: seq<int>, window: int) {
    forall i, j :: 0 <= i < j < |log| ==> log[i] + window <= log[j]
  }

  /** With limit 1 the list is the last allowed time, and allowed times are a window apart. */
  ghost predicate OneSlot(kept: seq<int>, log: seq<int>, window: int) {
    kept == (if log == [] then [] else [log[|log| - 1]]) && Apart(log, window)
  }

  lemma OneSlotStep(kept: seq<int>, log: seq<int>, now: int, window: int)
    requires window > 0 && OneSlot(kept, log, window)
    ensures var r := Admit(kept, now, 1, window);
            OneSlot(r.0, if r.1.Allowed? then log + [now] else log, window)
  {
    if kept != [] {
      assert [] + [kept[0]] == kept;
      PruneSnoc([], kept[0], now - window);
    }
  }

  lemma {:induction false} OneSlotAlways(times: seq<int>, window: int)
    requires window > 0
    ensures OneSlot(Kept(times, 1, window), Log(times, 1, window), window)
  {
    if times != [] {
      var n := |times| - 1;
      assert times == times[..n] + [times[n]];
      OneSlotAlways(times[..n], window);
      Snoc(times[..n], times[n], 1, window);
      OneSlotStep(Kept(times[..n], 1, window), Log(times[..n], 1, window), times[n], window);
    }
  }

  lemma {:induction false} ApartHoldsOne(log: seq<int>, t: int, window: int)
    requires Apart(log, window)
    ensures InWindow(log, t, window) <= 1
  {
    if log != [] {
      var n := |log| - 1;
      ApartHoldsOne(log[..n], t, window);
      if t - window < log[n] <= t {
        NoneInWindow(log[..n], t, window);
      }
    }
  }

  lemma {:induction false} NoneInWindow(log: seq<int>, t: int, window: int)
    requires window <= 0 || forall k :: 0 <= k < |log| ==> log[k] <= t - window
    ensures InWindow(log, t, window) == 0
  {
    if log != [] {
      NoneInWindow(log[..|log| - 1], t, window);
    }
  }

  /** `n` calls at time 0. */
  function Burst(n: nat): (s: seq<int>)
    ensures |s| == n && forall k :: 0 <= k < n ==> s[k] == 0
  {
    if n == 0 then [] else Burst(n - 1) + [0]
  }

  lemma {:induction false} BurstAllAllowed(n: nat, limit: int, window: int)
    requires n <= limit && limit >= 1 && window > 0
    ensures Kept(Burst(n), limit, window) == Burst(n)
    ensures Log(Burst(n), limit, window) == Burst(n)
  {
    if n > 0 {
      BurstAllAllowed(n - 1, limit, window);
      OneMoreKept(Burst(n - 1), limit, window);
    }
  }

  lemma OneMoreKept(burst: seq<int>, limit: int, window: int)
    requires |burst| < limit && window > 0 && forall k :: 0 <= k < |burst| ==> burst[k] == 0
    requires Kept(burst, limit, window) == burst && Log(burst, limit, window) == burst
    ensures Kept(burst + [0], limit, window) == burst + [0] && Log(burst + [0], limit, window) == burst + [0]
  {
    OneMoreAllowed(burst, limit, window);
    Snoc(burst, 0, limit, window);
  }

  lemma OneMoreAllowed(burst: seq<int>, limit: int, window: int)
    requires |burst| < limit && window > 0 && forall k :: 0 <= k < |burst| ==> burst[k] == 0
    ensures var r := Admit(burst, 0, limit, window); r.0 == burst + [0] && r.1.Allowed?
  {
    PruneNothing(burst, 0 - window);
  }

  lemma {:induction false} BurstInWindow(n: nat, t: nat, length: int)
    requires t < length
    ensures InWindow(Burst(n), t, length) == n
  {
    if n > 0 {
      BurstInWindow(n - 1, t, length);
      InWindowSnoc(Burst(n - 1), 0, t, length);
    }
  }

  /** A burst that fills the window, and a call just after the burst has left it. */
  function Late(limit: nat, window: int): seq<int> {
    Burst(limit) + [window]
  }

  /** Both are let in: a longer window holds one too many. */
  lemma {:induction false} LateAllowed(limit: int, window: int)
    requires limit >= 1 && window > 0
    ensures Log(Late(limit, window), limit, window) == Late(limit, window)
    ensures Kept(Late(limit, window), limit, window) == [window]
  {
    BurstAllAllowed(limit, limit, window);
    PruneAll(Burst(limit), 0);
    Snoc(Burst(limit), window, limit, window);
  }

  lemma LateBreaksBound(limit: int, window: int, length: int)
    requires limit >= 1 && 0 < window < length
    ensures InWindow(Log(Late(limit, window), limit, window), window, length) == limit + 1
  {
    LateAllowed(limit, window);
    BurstInWindow(limit, window, length);
    InWindowSnoc(Burst(limit), window, window, length);
  }

  /** The late call empties the list; then comes a call from the past. */
  function Backwards(limit: nat, window: int, back: int): seq<int> {
    Late(limit, window) + [back]
  }

  /** The call from the past is let in: one too many in every window that ends there and reaches the burst. */
  lemma BackwardsBreaksBound(limit: int, window: int, back: nat, length: int)
    requires limit >= 2 && window > 0 && back <= window && back < length
    ensures InWindow(Log(Backwards(limit, window, back), limit, window), back, length) > limit
  {
    LateAllowed(limit, window);
    PruneSnoc([], window, back - window);
    assert [] + [window] == [window];
    Snoc(Late(limit, window), back, limit, window);
    BurstInWindow(limit, back, length);
    InWindowSnoc(Burst(limit), window, back, length);
    InWindowSnoc(Late(limit, window), back, back, length);
  }

  /** An empty window forgets at once, and lets everything in. */
  lemma {:induction false} NoWindowAllowsAll(n: nat, limit: int, window: int)
    requires limit >= 1 && window <= 0
    ensures Log(Burst(n), limit, window) == Burst(n)
    ensures forall k :: 0 <= k < |Kept(Burst(n), limit, window)| ==> Kept(Burst(n), limit, window)[k] == 0
  {
    if n > 0 {
      NoWindowAllowsAll(n - 1, limit, window);
      PruneAll(Kept(Burst(n - 1), limit, window), 0 - window);
      Snoc(Burst(n - 1), 0, limit, window);
    }
  }

  // ----- Clocks that run backwards a little -----

  /** No time is more than `skew` before an earlier one. */
  ghost predicate Skewed(times: seq<int>, skew: int) {
    forall i, j :: 0 <= i < j < |times| ==> times[i] - skew <= times[j]
  }

  lemma TheseSkewed(limit: nat, window: nat, back: nat, skew: nat)
    requires window - skew <= back
    ensures Skewed(Burst(limit), skew) && Skewed(Late(limit, window), skew)
            && Skewed(Backwards(limit, window, back), skew)
  {
  }

  /** A later cutoff keeps no more. */
  lemma PruneLess(events: seq<int>, c: int, d: int)
    requires c <= d
    ensures |Prune(events, d)| <= |Prune(events, c)|
  {
    PruneTwice(events, c, d);
  }

  /** A window shorter by the skew holds no more than the limit. */
  lemma {:induction false} SkewBounded(times: seq<int>, skew: nat, t: int, length: int, limit: int, window: int)
    requires limit >= 1 && Skewed(times, skew) && length <= window - skew
    ensures InWindow(Log(times, limit, window), t, length) <= limit
  {
    if times != [] {
      var front, now := times[..|times| - 1], times[|times| - 1];
      SkewedFront(times, skew);
      SkewBounded(front, skew, t, length, limit, window);
      KeptLooksLikeLog(front, now + skew - window, limit, window);
      SkewStep(Kept(front, limit, window), Log(front, limit, window), now, skew, t, length, limit, window);
    }
  }

  lemma SkewedFront(times: seq<int>, skew: nat)
    requires times != [] && Skewed(times, skew)
    ensures var front := times[..|times| - 1];
            Skewed(front, skew) && forall k :: 0 <= k < |front| ==> front[k] <= times[|times| - 1] + skew
  {
  }

  lemma SkewStep(kept: seq<int>, log: seq<int>, now: int, skew: nat, t: int, length: int, limit: int, window: int)
    requires limit >= 1 && length <= window - skew && InWindow(log, t, length) <= limit
    requires Prune(kept, now + skew - window) == Prune(log, now + skew - window)
    ensures InWindow(Extended(log, now, Admit(kept, now, limit, window).1.Allowed?), t, length) <= limit
  {
    InWindowSnoc(log, now, t, length);
    if now <= t {
      WindowWithinPrune(log, now, t, length);
      PruneLess(log, now + skew - window, now - length);
      PruneLess(kept, now - window, now + skew - window);
    }
  }

  lemma {:induction false} ShorterWindow(log: seq<int>, t: int, length: int, window: int)
    requires length <= window
    ensures InWindow(log, t, length) <= InWindow(log, t, window)
  {
    if log != [] {
      ShorterWindow(log[..|log| - 1], t, length, window);
    }
  }

  // ----- Waiting -----

  /** The kept list is sorted, no longer than the limit, and from the past. */
  ghost predicate Shape(kept: seq<int>, limit: int, now: int) {
    |kept| <= limit && Sorted(kept) && forall k :: 0 <= k < |kept| ==> kept[k] <= now
  }

  lemma ShapeStep(kept: seq<int>, now: int, limit: int, window: int)
    requires limit >= 1 && Shape(kept, limit, now)
    ensures Shape(Admit(kept, now, limit, window).0, limit, now)
  {
    var pruned := Prune(kept, now - window);
    PruneSorted(kept, now - window);
    forall k | 0 <= k < |pruned| ensures pruned[k] <= now {
      PruneMembers(kept, now - window, pruned[k]);
    }
  }

  lemma {:induction false} KeptShape(times: seq<int>, now: int, limit: int, window: int)
    requires limit >= 1 && Sorted(times)
    requires forall k :: 0 <= k < |times| ==> times[k] <= now
    ensures Shape(Kept(times, limit, window), limit, now)
  {
    if times != [] {
      var n := |times| - 1;
      KeptShape(times[..n], times[n], limit, window);
      ShapeStep(Kept(times[..n], limit, window), times[n], limit, window);
    }
  }

  /** The list is full and `first` is the oldest time it holds. */
  ghost predicate FullSince(times: seq<int>, first: int, limit: int, window: int)
    requires limit >= 1
  {
    var kept := Kept(times, limit, window);
    |kept| == limit && kept[0] == first
  }

  /** The time that is left, but at least a second. */
  function Wait(left: int): int {
    if left >= 1_000_000_000 then left else 1_000_000_000
  }

  /** A denial leaves the list full, its first event inside the window, and the wait it returns is exactly the time
      until that event leaves, or a second when less is left. */
  lemma DenialMeaning(times: seq<int>, now: int, limit: int, window: int) returns (first: int)
    requires limit >= 1 && Sorted(times + [now])
    requires Answer(times, now, limit, window).Denied?
    ensures FullSince(times + [now], first, limit, window)
    ensures first in Kept(times, limit, window)
    ensures now < first + window <= now + Answer(times, now, limit, window).retry
    ensures Answer(times, now, limit, window).retry == Wait(first + window - now)
  {
    FirstInside(times, now, limit, window);
    FullAfterDenial(times, now, limit, window);
    first := Prune(Kept(times, limit, window), now - window)[0];
  }

  /** What is left of the list, when a call is denied. */
  lemma FirstInside(times: seq<int>, now: int, limit: int, window: int)
    requires limit >= 1 && Answer(times, now, limit, window).Denied?
    ensures var pruned := Prune(Kept(times, limit, window), now - window);
            && pruned != [] && pruned[0] in Kept(times, limit, window) && now < pruned[0] + window
            && Answer(times, now, limit, window).retry == Wait(pruned[0] + window - now)
  {
    var kept := Kept(times, limit, window);
    var pruned := Prune(kept, now - window);
    DeniedWaits(kept, now, limit, window);
    assert pruned[0] in pruned;
    PruneMembers(kept, now - window, pruned[0]);
  }

  lemma FullAfterDenial(times: seq<int>, now: int, limit: int, window: int)
    requires limit >= 1 && Sorted(times + [now]) && Answer(times, now, limit, window).Denied?
    ensures Prune(Kept(times, limit, window), now - window) != []
    ensures FullSince(times + [now], Prune(Kept(times, limit, window), now - window)[0], limit, window)
  {
    SortedPrefix(times, [now]);
    forall k | 0 <= k < |times| ensures times[k] <= now {
      assert (times + [now])[k] <= (times + [now])[|times|];
    }
    KeptShape(times, now, limit, window);
    Snoc(times, now, limit, window);
  }

  lemma DeniedWaits(kept: seq<int>, now: int, limit: int, window: int)
    requires limit >= 1 && Admit(kept, now, limit, window).1.Denied?
    ensures Prune(kept, now - window) != []
    ensures Admit(kept, now, limit, window).1.retry == Wait(Prune(kept, now - window)[0] + window - now)
  {
  }

  lemma SortedPrefix(s: seq<int>, t: seq<int>)
    requires Sorted(s + t)
    ensures Sorted(s)
  {
    forall i, j | 0 <= i < j < |s| ensures s[i] <= s[j] {
      assert (s + t)[i] <= (s + t)[j];
    }
  }

  /** While the first event is inside the window there is nothing to prune, and the call is denied. */
  lemma StillFull(times: seq<int>, now: int, first: int, limit: int, window: int)
    requires limit >= 1 && Sorted(times) && FullSince(times, first, limit, window)
    requires now < first + window
    ensures Admit(Kept(times, limit, window), now, limit, window).0 == Kept(times, limit, window)
    ensures Answer(times, now, limit, window).Denied?
  {
    if times != [] {
      KeptShape(times, times[|times| - 1], limit, window);
    }
    FullDenies(Kept(times, limit, window), now, limit, window);
  }

  lemma FullDenies(kept: seq<int>, now: int, limit: int, window: int)
    requires 1 <= limit <= |kept| && forall k :: 0 <= k < |kept| ==> kept[k] > now - window
    ensures Admit(kept, now, limit, window).0 == kept && Admit(kept, now, limit, window).1.Denied?
  {
    PruneNothing(kept, now - window);
  }

  /** So further calls change nothing while the first event is inside the window. */
  lemma {:induction false} StaysFull(times: seq<int>, more: seq<int>, first: int, limit: int, window: int)
    requires limit >= 1 && Sorted(times) && FullSince(times, first, limit, window)
    requires forall k :: 0 <= k < |more| ==> more[k] < first + window
    ensures Kept(times + more, limit, window) == Kept(times, limit, window)
  {
    if more == [] {
      assert times + more == times;
    } else {
      var n := |more| - 1;
      StaysFull(times, more[..n], first, limit, window);
      assert times + more == (times + more[..n]) + [more[n]];
      Snoc(times + more[..n], more[n], limit, window);
      StillFull(times, more[n], first, limit, window);
    }
  }

  /** Once the first event has left, the next call is allowed. */
  lemma AllowedAgain(times: seq<int>, now: int, first: int, limit: int, window: int)
    requires limit >= 1 && FullSince(times, first, limit, window)
    requires now >= first + window
    ensures Answer(times, now, limit, window).Allowed?
  {
    PruneSomething(Kept(times, limit, window), now - window, 0);
  }
}

/** Whole runs of the limiter: any number of keys, any number of calls. */
module LimiterRuns {
  import opened LimiterSpec
  import OneKey

  datatype Call = Call(key: string, now: int)

  function EventsOf(s: map<string, seq<int>>, key: string): seq<int> {
    if key in s then s[key] else []
  }

  /** The contents of the limiter after a run. */
  function After(calls: seq<Call>, limit: int, window: int): map<string, seq<int>>
    requires limit >= 1
  {
    if calls == [] then map[]
    else
      var n := |calls| - 1;
      var s := After(calls[..n], limit, window);
      s[calls[n].key := Admit(EventsOf(s, calls[n].key), calls[n].now, limit, window).0]
  }

  /** The answer to one more call. */
  function Answer(calls: seq<Call>, c: Call, limit: int, window: int): Verdict
    requires limit >= 1
  {
    Admit(EventsOf(After(calls, limit, window), c.key), c.now, limit, window).1
  }

  /** How many calls of `key` were allowed at a time in (t - length, t]. */
  function AllowedIn(calls: seq<Call>, key: string, t: int, length: int, limit: int, window: int): nat
    requires limit >= 1
  {
    if calls == [] then 0
    else
      var n := |calls| - 1;
      var c := calls[n];
      AllowedIn(calls[..n], key, t, length, limit, window)
      + if c.key == key && t - length < c.now <= t && Answer(calls[..n], c, limit, window).Allowed? then 1 else 0
  }

  /** The clock never runs backwards for any one key. */
  ghost predicate InOrder(calls: seq<Call>) {
    forall i, j :: 0 <= i < j < |calls| && calls[i].key == calls[j].key ==> calls[i].now <= calls[j].now
  }

  /** No key's clock is ever more than `skew` behind an earlier call: the time is read before the lock
      is taken. */
  ghost predicate InOrderUpTo(calls: seq<Call>, skew: int) {
    forall i, j :: 0 <= i < j < |calls| && calls[i].key == calls[j].key ==> calls[i].now - skew <= calls[j].now
  }

  /** No rolling window of this length ever holds more than `limit` allowed calls of a key. */
  ghost predicate Bounded(calls: seq<Call>, length: int, limit: int, window: int)
    requires limit >= 1
  {
    forall key, t :: AllowedIn(calls, key, t, length, limit, window) <= limit
  }

  /** The times of the calls of one key. */
  function Times(calls: seq<Call>, key: string): seq<int> {
    if calls == [] then []
    else
      var n := |calls| - 1;
      Times(calls[..n], key) + if calls[n].key == key then [calls[n].now] else []
  }

  lemma {:induction false} TimesConcat(a: seq<Call>, b: seq<Call>, key: string)
    ensures Times(a + b, key) == Times(a, key) + Times(b, key)
  {
    if b == [] {
      assert a + b == a;
    } else {
      var n := |b| - 1;
      assert (a + b)[..|a| + n] == a + b[..n];
      TimesConcat(a, b[..n], key);
    }
  }

  lemma TimesSnoc(calls: seq<Call>, c: Call)
    ensures Times(calls + [c], c.key) == Times(calls, c.key) + [c.now]
  {
    assert (calls + [c])[..|calls|] == calls;
  }

  lemma {:induction false} TimesMembers(calls: seq<Call>, key: string, k: nat)
    requires k < |Times(calls, key)|
    ensures exists i :: 0 <= i < |calls| && calls[i] == Call(key, Times(calls, key)[k])
  {
    var n := |calls| - 1;
    if k < |Times(calls[..n], key)| {
      TimesMembers(calls[..n], key, k);
      var i :| 0 <= i < n && calls[..n][i] == Call(key, Times(calls[..n], key)[k]);
      assert calls[i] == Call(key, Times(calls, key)[k]);
    } else {
      assert calls[n] == Call(key, Times(calls, key)[k]);
    }
  }

  lemma {:induction false} TimesSorted(calls: seq<Call>, key: string)
    requires InOrder(calls)
    ensures Sorted(Times(calls, key))
  {
    if calls != [] {
      var n := |calls| - 1;
      var front := Times(calls[..n], key);
      TimesSorted(calls[..n], key);
      forall k | 0 <= k < |front| && calls[n].key == key ensures front[k] <= calls[n].now {
        TimesMembers(calls[..n], key, k);
      }
    }
  }

  /** What the limiter holds for a key depends on the calls of that key alone. */
  lemma {:induction false} KeysIndependent(calls: seq<Call>, key: string, limit: int, window: int)
    requires limit >= 1
    ensures EventsOf(After(calls, limit, window), key) == OneKey.Kept(Times(calls, key), limit, window)
  {
    if calls != [] {
      var n := |calls| - 1;
      var times := Times(calls[..n], key);
      KeysIndependent(calls[..n], key, limit, window);
      if calls[n].key == key {
        OneKey.Snoc(times, calls[n].now, limit, window);
      } else {
        assert Times(calls, key) == times;
      }
    }
  }

  /** So does the number of its calls that were let in. */
  lemma {:induction false} AllowedInLog(calls: seq<Call>, key: string, t: int, length: int, limit: int, window: int)
    requires limit >= 1
    ensures AllowedIn(calls, key, t, length, limit, window)
         == OneKey.InWindow(OneKey.Log(Times(calls, key), limit, window), t, length)
  {
    if calls != [] {
      var n := |calls| - 1;
      var times := Times(calls[..n], key);
      var c := calls[n];
      AllowedInLog(calls[..n], key, t, length, limit, window);
      if c.key == key {
        KeysIndependent(calls[..n], key, limit, window);
        assert Answer(calls[..n], c, limit, window) == OneKey.Answer(times, c.now, limit, window);
        OneKeyLogStep(times, c.now, t, length, limit, window);
        assert Times(calls, key) == times + [c.now];
      } else {
        assert Times(calls, key) == times;
      }
    }
  }

  lemma OneKeyLogStep(times: seq<int>, now: int, t: int, length: int, limit: int, window: int)
    requires limit >= 1
    ensures OneKey.InWindow(OneKey.Log(times + [now], limit, window), t, length)
         == OneKey.InWindow(OneKey.Log(times, limit, window), t, length)
            + if t - length < now <= t && OneKey.Answer(times, now, limit, window).Allowed? then 1 else 0
  {
    OneKey.Snoc(times, now, limit, window);
    OneKey.InWindowSnoc(OneKey.Log(times, limit, window), now, t, length);
  }

  /** In every run in which no key's clock runs backwards, every rolling window of every key holds
      at most `limit` allowed calls, whatever the other keys do. */
  lemma RollingWindowBound(calls: seq<Call>, limit: int, window: int)
    requires limit >= 1 && InOrder(calls)
    ensures Bounded(calls, window, limit, window)
  {
    forall key, t ensures AllowedIn(calls, key, t, window, limit, window) <= limit {
      AllowedInLog(calls, key, t, window, limit, window);
      TimesSorted(calls, key);
      OneKey.RefinesReference(Times(calls, key), limit, window);
      OneKey.ReferenceBounded(Times(calls, key), t, limit, window);
    }
  }

  lemma {:induction false} TimesSkewed(calls: seq<Call>, key: string, skew: nat)
    requires InOrderUpTo(calls, skew)
    ensures OneKey.Skewed(Times(calls, key), skew)
  {
    if calls != [] {
      var n := |calls| - 1;
      var front := Times(calls[..n], key);
      TimesSkewed(calls[..n], key, skew);
      forall k | 0 <= k < |front| && calls[n].key == key ensures front[k] - skew <= calls[n].now {
        TimesMembers(calls[..n], key, k);
      }
    }
  }

  /** In an ordered run the answer is the one that counting the complete log of the key would give. */
  lemma DecidesAsFullLog(calls: seq<Call>, c: Call, limit: int, window: int)
    requires limit >= 1 && InOrder(calls + [c])
    ensures Answer(calls, c, limit, window).Allowed?
       <==> OneKey.FitsFullLog(Times(calls, c.key), c.now, limit, window)
  {
    SameAnswer(calls, c, limit, window);
    OrderedTimes(calls, c);
    OneKey.DecidesAsReference(Times(calls, c.key), c.now, limit, window);
  }

  lemma OrderedTimes(calls: seq<Call>, c: Call)
    requires InOrder(calls + [c])
    ensures Sorted(Times(calls, c.key) + [c.now])
  {
    TimesSorted(calls + [c], c.key);
    TimesSnoc(calls, c);
  }

  lemma SameAnswer(calls: seq<Call>, c: Call, limit: int, window: int)
    requires limit >= 1
    ensures Answer(calls, c, limit, window) == OneKey.Answer(Times(calls, c.key), c.now, limit, window)
  {
    KeysIndependent(calls, c.key, limit, window);
  }

  function CallsAt(key: string, times: seq<int>): (calls: seq<Call>)
    ensures Times(calls, key) == times
    ensures |calls| == |times| && forall i :: 0 <= i < |calls| ==> calls[i] == Call(key, times[i])
  {
    if times == [] then []
    else
      var n := |times| - 1;
      var front := CallsAt(key, times[..n]);
      assert (front + [Call(key, times[n])])[..|front|] == front;
      front + [Call(key, times[n])]
  }

  /** A run of one key whose log overfills some window of the length. */
  lemma BreaksBound(times: seq<int>, skew: nat, t: int, length: int, limit: int, window: int)
    requires limit >= 1 && OneKey.Skewed(times, skew)
    requires OneKey.InWindow(OneKey.Log(times, limit, window), t, length) > limit
    ensures exists calls :: InOrderUpTo(calls, skew) && !Bounded(calls, length, limit, window)
  {
    var calls := CallsAt("k", times);
    AllowedInLog(calls, "k", t, length, limit, window);
    assert InOrderUpTo(calls, skew) && !Bounded(calls, length, limit, window);
  }

  /** With clocks that run backwards by at most `skew`, windows of a length are bounded in every run
      exactly when they are empty, or shorter than the limiter's window by the skew, or the limit is 1 and
      they are no longer than the limiter's window. */
  lemma SkewBoundIff(skew: nat, length: int, limit: int, window: int)
    requires limit >= 1
    ensures (forall calls :: InOrderUpTo(calls, skew) ==> Bounded(calls, length, limit, window))
       <==> length <= 0 || length <= window - skew || (limit == 1 && length <= window)
  {
    if length <= 0 || length <= window - skew || (limit == 1 && length <= window) {
      forall calls | InOrderUpTo(calls, skew) ensures Bounded(calls, length, limit, window) {
        SkewHolds(calls, skew, length, limit, window);
      }
    } else {
      SkewBreaks(skew, length, limit, window);
    }
  }

  lemma SkewHolds(calls: seq<Call>, skew: nat, length: int, limit: int, window: int)
    requires limit >= 1 && InOrderUpTo(calls, skew)
    requires length <= 0 || length <= window - skew || (limit == 1 && length <= window)
    ensures Bounded(calls, length, limit, window)
  {
    forall key, t ensures AllowedIn(calls, key, t, length, limit, window) <= limit {
      AllowedInLog(calls, key, t, length, limit, window);
      var log := OneKey.Log(Times(calls, key), limit, window);
      if length <= 0 {
        OneKey.NoneInWindow(log, t, length);
      } else if length <= window - skew {
        TimesSkewed(calls, key, skew);
        OneKey.SkewBounded(Times(calls, key), skew, t, length, limit, window);
      } else {
        OneKey.OneSlotAlways(Times(calls, key), window);
        OneKey.ApartHoldsOne(log, t, window);
        OneKey.ShorterWindow(log, t, length, window);
      }
    }
  }

  lemma SkewBreaks(skew: nat, length: int, limit: int, window: int)
    requires limit >= 1 && length > 0 && length > window - skew && (limit > 1 || length > window)
    ensures exists calls :: InOrderUpTo(calls, skew) && !Bounded(calls, length, limit, window)
  {
    if window <= 0 {
      OneKey.TheseSkewed(limit + 1, 0, 0, skew);
      OneKey.NoWindowAllowsAll(limit + 1, limit, window);
      OneKey.BurstInWindow(limit + 1, 0, length);
      BreaksBound(OneKey.Burst(limit + 1), skew, 0, length, limit, window);
    } else if length > window {
      OneKey.TheseSkewed(limit, window, window, skew);
      OneKey.LateBreaksBound(limit, window, length);
      BreaksBound(OneKey.Late(limit, window), skew, window, length, limit, window);
    } else {
      var back := if skew < window then window - skew else 0;
      OneKey.TheseSkewed(limit, window, back, skew);
      OneKey.BackwardsBreaksBound(limit, window, back, length);
      BreaksBound(OneKey.Backwards(limit, window, back), skew, back, length, limit, window);
    }
  }

  /** Without any hypothesis on the order, windows of the limiter's own length are bounded in every run
      exactly when the limit is 1 or the window is empty. */
  lemma AnyOrderBoundIff(limit: int, window: int)
    requires limit >= 1
    ensures (forall calls :: Bounded(calls, window, limit, window)) <==> limit == 1 || window <= 0
  {
    if limit == 1 || window <= 0 {
      forall calls ensures Bounded(calls, window, limit, window) {
        var skew := SomeSkew(calls);
        SkewHolds(calls, skew, window, limit, window);
      }
    } else {
      SkewBreaks(window, window, limit, window);
    }
  }

  /** Every run has some skew. */
  lemma {:induction false} SomeSkew(calls: seq<Call>) returns (skew: nat)
    ensures InOrderUpTo(calls, skew)
  {
    skew := 0;
    if calls != [] {
      var n := |calls| - 1;
      var before := SomeSkew(calls[..n]);
      skew := before;
      for k := 0 to n
        invariant skew >= before && forall i :: 0 <= i < k ==> calls[i].now - skew <= calls[n].now
      {
        if calls[k].now - skew > calls[n].now {
          skew := calls[k].now - calls[n].now;
        }
      }
      forall i, j | 0 <= i < j < |calls| && calls[i].key == calls[j].key ensures calls[i].now - skew <= calls[j].now {
        if j < n {
          assert calls[..n][i] == calls[i] && calls[..n][j] == calls[j];
        }
      }
    }
  }

  /** A denied key stays denied, however often it asks, until its first retained event leaves the
      window; if it does not ask meanwhile it is allowed from that instant on.  The wait it was told is
      exactly the time left, or a second when less is left. */
  lemma RetryIsExact(calls: seq<Call>, c: Call, between: seq<Call>, again: Call, limit: int, window: int)
    returns (first: int)
    requires limit >= 1 && again.key == c.key
    requires InOrder(calls + [c])
    requires Answer(calls, c, limit, window).Denied?
    ensures first in EventsOf(After(calls, limit, window), c.key)
    ensures c.now < first + window <= c.now + Answer(calls, c, limit, window).retry
    ensures Answer(calls, c, limit, window).retry == OneKey.Wait(first + window - c.now)
    ensures (forall b <- between :: b.key == c.key ==> b.now < first + window) && again.now < first + window
            ==> Answer(calls + [c] + between, again, limit, window).Denied?
    ensures (forall b <- between :: b.key != c.key) && again.now >= first + window
            ==> Answer(calls + [c] + between, again, limit, window).Allowed?
  {
    var times := Times(calls, c.key);
    KeysIndependent(calls, c.key, limit, window);
    TimesSorted(calls + [c], c.key);
    TimesSnoc(calls, c);
    first := OneKey.DenialMeaning(times, c.now, limit, window);
    var more := Times(between, c.key);
    TimesConcat(calls + [c], between, c.key);
    KeysIndependent(calls + [c] + between, c.key, limit, window);
    if (forall b <- between :: b.key == c.key ==> b.now < first + window) && again.now < first + window {
      forall k | 0 <= k < |more| ensures more[k] < first + window {
        TimesMembers(between, c.key, k);
      }
      OneKey.StaysFull(times + [c.now], more, first, limit, window);
      OneKey.StillFull(times + [c.now], again.now, first, limit, window);
    }
    if (forall b <- between :: b.key != c.key) && again.now >= first + window {
      if |more| > 0 {
        TimesMembers(between, c.key, 0);
      }
      assert times + [c.now] + more == times + [c.now];
      OneKey.AllowedAgain(times + [c.now], again.now, first, limit, window);
    }
  }
}

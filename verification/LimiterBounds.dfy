/** How many requests on one key can get through in a given span of time: the exact maximum. */
module LimiterBounds {
  import opened Optional
  import opened LimiterSpec
  import opened LimiterWindows

  function AdmittedIn(ts: seq<int>, ds: seq<Decision>, lo: int, hi: int): (n: nat)
    requires |ts| == |ds|
    ensures n <= |ts|
  {
    if ts == [] then 0
    else (if ds[0] == Admitted && lo <= ts[0] <= hi then 1 else 0) + AdmittedIn(ts[1..], ds[1..], lo, hi)
  }

  /** The admitted requests on a key, in a run from the empty store, with a time in [lo, hi]. */
  function AdmittedOn(es: seq<Event>, key: string, lo: int, hi: int): nat {
    AdmittedIn(HitTimes(es, key), RepliesOn(map[], es, key), lo, hi)
  }

  /** The largest number a span of L milliseconds can see admitted. */
  function Peak(windowMs: nat, max: nat, L: nat): nat {
    var q := L / (windowMs + 1);
    if max == 0 then 0
    else if L % (windowMs + 1) == 0 then (1 + q) * max
    else (2 + q) * max - 1
  }

  // ----- Arithmetic

  lemma Scale(k: nat, a: int, b: int)
    requires a <= b
    ensures k * a <= k * b
  {
  }

  lemma Multiple(d: int, k: int)
    requires d > 0
    ensures k >= 1 ==> d * k >= d
    ensures k <= -1 ==> d * k <= -d
  {
  }

  lemma Quotient(x: int, d: int, q: int)
    requires d > 0 && q * d <= x < (q + 1) * d
    ensures x / d == q
  {
    var r := x / d;
    assert x == d * r + x % d;
    assert (q + 1) * d == q * d + d && d * (r - q) == d * r - q * d;
    Multiple(d, r - q);
  }

  lemma QuotientMonotone(x: int, y: int, d: int)
    requires d > 0 && x <= y
    ensures x / d <= y / d
  {
    var a, b := x / d, y / d;
    assert x == d * a + x % d && y == d * b + y % d;
    assert d * (a - b) == d * a - d * b;
    Multiple(d, a - b);
  }

  lemma QuotientShift(x: int, d: int)
    requires d > 0
    ensures (x - d) / d == x / d - 1
  {
    assert x == d * (x / d) + x % d;
    assert (x / d - 1) * d == d * (x / d) - d;
    Quotient(x - d, d, x / d - 1);
  }

  lemma QuotientPred(x: nat, d: nat)
    requires d > 0 && x > 0
    ensures (x - 1) / d == if x % d == 0 then x / d - 1 else x / d
  {
    var q := x / d;
    assert x == d * q + x % d;
    assert (q + 1) * d == d * q + d && (q - 1) * d == d * q - d;
    Quotient(x - 1, d, if x % d == 0 then q - 1 else q);
  }

  // ----- Counting window by window

  lemma {:induction false} AdmittedConcat(
    ts: seq<int>, ds: seq<Decision>, us: seq<int>, es: seq<Decision>, lo: int, hi: int)
    requires |ts| == |ds| && |us| == |es|
    ensures AdmittedIn(ts + us, ds + es, lo, hi) == AdmittedIn(ts, ds, lo, hi) + AdmittedIn(us, es, lo, hi)
    decreases |ts|
  {
    if ts == [] {
      assert ts + us == us && ds + es == es;
    } else {
      assert (ts + us)[1..] == ts[1..] + us && (ds + es)[1..] == ds[1..] + es;
      AdmittedConcat(ts[1..], ds[1..], us, es, lo, hi);
    }
  }

  lemma {:induction false} AnswersLength(ws: seq<seq<int>>, windowMs: nat, max: nat)
    ensures |AllAnswers(ws, windowMs, max)| == |Flatten(ws)|
    decreases |ws|
  {
    if ws != [] {
      AnswersLength(ws[1..], windowMs, max);
    }
  }

  function AdmittedInWindows(ws: seq<seq<int>>, windowMs: nat, max: nat, lo: int, hi: int): nat {
    if ws == [] then 0
    else AdmittedIn(ws[0], Answers(ws[0], windowMs, max), lo, hi)
         + AdmittedInWindows(ws[1..], windowMs, max, lo, hi)
  }

  lemma {:induction false} CountByWindow(ws: seq<seq<int>>, windowMs: nat, max: nat, lo: int, hi: int)
    ensures |AllAnswers(ws, windowMs, max)| == |Flatten(ws)|
    ensures AdmittedIn(Flatten(ws), AllAnswers(ws, windowMs, max), lo, hi)
            == AdmittedInWindows(ws, windowMs, max, lo, hi)
    decreases |ws|
  {
    AnswersLength(ws, windowMs, max);
    if ws != [] {
      CountByWindow(ws[1..], windowMs, max, lo, hi);
      AdmittedConcat(ws[0], Answers(ws[0], windowMs, max),
                     Flatten(ws[1..]), AllAnswers(ws[1..], windowMs, max), lo, hi);
    }
  }

  lemma {:induction false} AtMostTheOpenSlots(ts: seq<int>, ds: seq<Decision>, slots: nat, lo: int, hi: int)
    requires |ts| == |ds| && forall i :: slots <= i < |ds| ==> ds[i] != Admitted
    ensures AdmittedIn(ts, ds, lo, hi) <= slots
    decreases |ts|
  {
    if ts != [] {
      AtMostTheOpenSlots(ts[1..], ds[1..], if slots == 0 then 0 else slots - 1, lo, hi);
    }
  }

  lemma {:induction false} NoneOutside(ts: seq<int>, ds: seq<Decision>, lo: int, hi: int)
    requires |ts| == |ds| && forall i :: 0 <= i < |ts| ==> !(lo <= ts[i] <= hi)
    ensures AdmittedIn(ts, ds, lo, hi) == 0
    decreases |ts|
  {
    if ts != [] {
      NoneOutside(ts[1..], ds[1..], lo, hi);
    }
  }

  lemma WindowShare(w: seq<int>, windowMs: nat, max: nat, lo: int, hi: int)
    requires IsWindow(w, windowMs)
    ensures var n := AdmittedIn(w, Answers(w, windowMs, max), lo, hi);
            && n <= max
            && (w[0] < lo && max > 0 ==> n < max)
            && (w[0] > hi || w[0] + windowMs < lo ==> n == 0)
  {
    var ds := Answers(w, windowMs, max);
    AtMostTheOpenSlots(w, ds, max, lo, hi);
    if w[0] < lo && max > 0 {
      AtMostTheOpenSlots(w[1..], ds[1..], max - 1, lo, hi);
    }
    if w[0] > hi || w[0] + windowMs < lo {
      NoneOutside(w, ds, lo, hi);
    }
  }

  // How many windows can open in [s, hi] when the first opens at s.
  function Openings(windowMs: nat, s: int, hi: int): nat {
    if s > hi then 0 else
      assert (hi - s) / (windowMs + 1) >= 0 by { QuotientMonotone(0, hi - s, windowMs + 1); }
      1 + (hi - s) / (windowMs + 1)
  }

  lemma OpeningsFall(windowMs: nat, s: int, t: int, hi: int)
    requires s <= t
    ensures Openings(windowMs, t, hi) <= Openings(windowMs, s, hi)
    ensures s <= hi && s + windowMs < t ==> Openings(windowMs, t, hi) + 1 <= Openings(windowMs, s, hi)
  {
    var d := windowMs + 1;
    if t <= hi {
      QuotientMonotone(hi - t, hi - s, d);
      if s + windowMs < t {
        QuotientMonotone(hi - t, hi - s - d, d);
        QuotientShift(hi - s, d);
      }
    }
  }

  lemma {:induction false} WindowsOpeningInside(ws: seq<seq<int>>, windowMs: nat, max: nat, lo: int, hi: int)
    requires Greedy(ws, windowMs) && (ws != [] ==> lo <= ws[0][0])
    ensures AdmittedInWindows(ws, windowMs, max, lo, hi)
            <= if ws == [] then 0 else max * Openings(windowMs, ws[0][0], hi)
    decreases |ws|
  {
    if ws != [] {
      var s := ws[0][0];
      WindowShare(ws[0], windowMs, max, lo, hi);
      GreedyTail(ws, windowMs);
      if |ws| > 1 {
        WindowsOpeningInside(ws[1..], windowMs, max, lo, hi);
        OpeningsFall(windowMs, s, ws[1][0], hi);
        OneMore(max, Openings(windowMs, ws[1][0], hi), Openings(windowMs, s, hi), s <= hi);
      } else {
        OneMore(max, 0, Openings(windowMs, s, hi), s <= hi);
      }
    }
  }

  lemma OneMore(max: nat, n: nat, m: nat, more: bool)
    requires if more then n + 1 <= m else n <= m
    ensures max * n + (if more then max else 0) <= max * m
  {
    Scale(max, if more then n + 1 else n, m);
    assert max * (n + 1) == max * n + max;
  }

  lemma PeakCovers(windowMs: nat, max: nat, lo: int, L: nat)
    requires max > 0
    ensures max * Openings(windowMs, lo, lo + L) <= Peak(windowMs, max, L)
    ensures max - 1 + max * Openings(windowMs, lo + 1, lo + L) <= Peak(windowMs, max, L)
  {
    var d := windowMs + 1;
    var q := L / d;
    QuotientMonotone(0, L, d);
    assert max * (1 + q) == (1 + q) * max && (2 + q) * max == (1 + q) * max + max;
    if L > 0 {
      QuotientPred(L, d);
      assert max - 1 + max * q <= (1 + q) * max;
    }
  }

  lemma {:induction false} WindowsBound(ws: seq<seq<int>>, windowMs: nat, max: nat, lo: int, L: nat)
    requires Greedy(ws, windowMs)
    ensures AdmittedInWindows(ws, windowMs, max, lo, lo + L) <= Peak(windowMs, max, L)
    decreases |ws|
  {
    var hi := lo + L;
    if max == 0 {
      NothingAdmitted(ws, windowMs, lo, hi);
    } else {
      PeakCovers(windowMs, max, lo, L);
      if ws == [] {
      } else if lo <= ws[0][0] {
        WindowsOpeningInside(ws, windowMs, max, lo, hi);
        OpeningsFall(windowMs, lo, ws[0][0], hi);
        Scale(max, Openings(windowMs, ws[0][0], hi), Openings(windowMs, lo, hi));
      } else {
        WindowShare(ws[0], windowMs, max, lo, hi);
        GreedyTail(ws, windowMs);
        if ws[0][0] + windowMs < lo {
          WindowsBound(ws[1..], windowMs, max, lo, L);
        } else if |ws| > 1 {
          var t := ws[1][0];
          WindowsOpeningInside(ws[1..], windowMs, max, lo, hi);
          OpeningsFall(windowMs, lo + 1, t, hi);
          Scale(max, Openings(windowMs, t, hi), Openings(windowMs, lo + 1, hi));
        }
      }
    }
  }

  lemma {:induction false} NothingAdmitted(ws: seq<seq<int>>, windowMs: nat, lo: int, hi: int)
    requires Greedy(ws, windowMs)
    ensures AdmittedInWindows(ws, windowMs, 0, lo, hi) == 0
    decreases |ws|
  {
    if ws != [] {
      WindowShare(ws[0], windowMs, 0, lo, hi);
      GreedyTail(ws, windowMs);
      NothingAdmitted(ws[1..], windowMs, lo, hi);
    }
  }

  /** In every run, and for every span of L milliseconds, a key gets at most `Peak` requests through. */
  lemma SpanBound(from: int, es: seq<Event>, key: string, windowMs: nat, max: nat, lo: int, L: nat)
    requires LegalRun(from, es, key, windowMs, max)
    ensures AdmittedOn(es, key, lo, lo + L) <= Peak(windowMs, max, L)
  {
    var ts := HitTimes(es, key);
    HitTimesSorted(from, es, key);
    WindowsExist(ts, windowMs);
    var ws := Windows(ts, windowMs);
    var now := LatestOf(from, es);
    HistoryRefinement(from, es, key, windowMs, max, ws, now);
    CountByWindow(ws, windowMs, max, lo, lo + L);
    WindowsBound(ws, windowMs, max, lo, L);
  }

  lemma {:induction false} LatestOf(from: int, es: seq<Event>) returns (now: int)
    requires Ordered(from, es)
    ensures from <= now && forall i :: 0 <= i < |es| ==> es[i].now <= now
    decreases es
  {
    if es == [] {
      now := from;
    } else {
      now := LatestOf(es[0].now, es[1..]);
      assert forall i :: 0 < i < |es| ==> es[i] == es[1..][i-1];
    }
  }

  // ----- The bound is reached

  function Copies(t: int, n: nat): seq<int> {
    seq(n, i => t)
  }

  // Full windows, each opening as soon as the one before has expired.
  function Train(t: int, windowMs: nat, max: nat, n: nat): seq<seq<int>>
    decreases n
  {
    if n == 0 then [] else [Copies(t, max)] + Train(t + windowMs + 1, windowMs, max, n - 1)
  }

  lemma {:induction false} AllCounted(ts: seq<int>, ds: seq<Decision>, lo: int, hi: int)
    requires |ts| == |ds|
    requires forall i :: 0 <= i < |ts| ==> ds[i] == Admitted && lo <= ts[i] <= hi
    ensures AdmittedIn(ts, ds, lo, hi) == |ts|
    decreases |ts|
  {
    if ts != [] {
      AllCounted(ts[1..], ds[1..], lo, hi);
    }
  }

  lemma {:induction false} TrainIsGreedy(t: int, windowMs: nat, max: nat, n: nat)
    requires max > 0
    ensures var ws := Train(t, windowMs, max, n);
            && Greedy(ws, windowMs)
            && (if n == 0 then ws == [] else ws != [] && ws[0] == Copies(t, max))
            && Sorted(Flatten(ws))
            && forall i :: 0 <= i < |Flatten(ws)| ==> t <= Flatten(ws)[i]
    decreases n
  {
    if n > 0 {
      TrainIsGreedy(t + windowMs + 1, windowMs, max, n - 1);
      GreedyCons(Copies(t, max), Train(t + windowMs + 1, windowMs, max, n - 1), windowMs);
    }
  }

  // The last of n windows opens by hi.
  ghost predicate Fits(t: int, windowMs: nat, n: nat, hi: int) {
    n > 0 ==> t + (n - 1) * (windowMs + 1) <= hi
  }

  lemma FitsTail(t: int, windowMs: nat, n: nat, hi: int)
    requires n > 0 && Fits(t, windowMs, n, hi)
    ensures t <= hi && Fits(t + windowMs + 1, windowMs, n - 1, hi)
  {
  }

  lemma {:induction false} TrainCounts(t: int, windowMs: nat, max: nat, n: nat, lo: int, hi: int)
    requires lo <= t && Fits(t, windowMs, n, hi)
    ensures AdmittedInWindows(Train(t, windowMs, max, n), windowMs, max, lo, hi) == n * max
    decreases n
  {
    if n > 0 {
      FitsTail(t, windowMs, n, hi);
      TrainCounts(t + windowMs + 1, windowMs, max, n - 1, lo, hi);
      var w, later := Copies(t, max), Train(t + windowMs + 1, windowMs, max, n - 1);
      assert ([w] + later)[1..] == later;
      AllCounted(w, Answers(w, windowMs, max), lo, hi);
      assert n * max == max + (n - 1) * max;
    }
  }

  function AsRun(ts: seq<int>, l: Limiter, c: Call): seq<Event> {
    if ts == [] then [] else [Request(l, c, ts[0])] + AsRun(ts[1..], l, c)
  }

  lemma {:induction false} RunHits(from: int, ts: seq<int>, l: Limiter, c: Call)
    requires Sorted(ts) && (ts != [] ==> from <= ts[0]) && !Bypasses(l, c)
    ensures var key := Key(l.keyPrefix, ClientIp(c)); var es := AsRun(ts, l, c);
            HitTimes(es, key) == ts && LegalRun(from, es, key, l.windowMs, l.max)
    decreases |ts|
  {
    if ts != [] {
      RunHits(ts[0], ts[1..], l, c);
      var later := AsRun(ts[1..], l, c);
      assert ([Request(l, c, ts[0])] + later)[1..] == later;
    }
  }

  // A run on one key that reaches `Peak`, and its times.
  lemma BusiestRun(l: Limiter, c: Call, L: nat) returns (ts: seq<int>, es: seq<Event>, lo: int)
    requires !Bypasses(l, c)
    ensures es == AsRun(ts, l, c)
    ensures LegalRun(0, es, Key(l.keyPrefix, ClientIp(c)), l.windowMs, l.max)
    ensures AdmittedOn(es, Key(l.keyPrefix, ClientIp(c)), lo, lo + L) == Peak(l.windowMs, l.max, L)
  {
    var key, W, max := Key(l.keyPrefix, ClientIp(c)), l.windowMs, l.max;
    var ws := [];
    lo := 0;
    if max > 0 {
      ws, lo := PeakWindows(W, max, L);
    }
    ts := Flatten(ws);
    es := AsRun(ts, l, c);
    RunHits(0, ts, l, c);
    var now := LatestOf(0, es);
    HistoryRefinement(0, es, key, W, max, ws, now);
    CountByWindow(ws, W, max, lo, lo + L);
  }

  /** `Peak` is no overestimate: for every limiter and span some run on one key reaches it. */
  lemma SpanBoundReached(l: Limiter, c: Call, L: nat) returns (es: seq<Event>, lo: int)
    requires !Bypasses(l, c)
    ensures LegalRun(0, es, Key(l.keyPrefix, ClientIp(c)), l.windowMs, l.max)
    ensures AdmittedOn(es, Key(l.keyPrefix, ClientIp(c)), lo, lo + L) == Peak(l.windowMs, l.max, L)
  {
    var ts;
    ts, es, lo := BusiestRun(l, c, L);
  }

  lemma PeakCases(windowMs: nat, max: nat, L: nat) returns (n: nat, aligned: bool)
    requires max > 0
    ensures aligned ==> Fits(0, windowMs, n, L) && Peak(windowMs, max, L) == n * max
    ensures !aligned ==>
              && windowMs > 0
              && Fits(windowMs + 1, windowMs, n, windowMs + L)
              && Peak(windowMs, max, L) == max - 1 + n * max
  {
    var d := windowMs + 1;
    var q := L / d;
    QuotientMonotone(0, L, d);
    aligned := L % d == 0;
    n := q + 1;
    assert L == d * q + L % d && q * d == d * q;
    assert (2 + q) * max == (q + 1) * max + max;
  }

  lemma PeakWindows(windowMs: nat, max: nat, L: nat) returns (ws: seq<seq<int>>, lo: int)
    requires max > 0
    ensures Greedy(ws, windowMs) && Sorted(Flatten(ws)) && (Flatten(ws) != [] ==> 0 <= Flatten(ws)[0])
    ensures AdmittedInWindows(ws, windowMs, max, lo, lo + L) == Peak(windowMs, max, L)
  {
    var n, aligned := PeakCases(windowMs, max, L);
    if aligned {
      lo := 0;
      ws := Train(0, windowMs, max, n);
      TrainIsGreedy(0, windowMs, max, n);
      TrainCounts(0, windowMs, max, n, 0, L);
    } else {
      lo := windowMs;
      ws := UnalignedWindows(windowMs, max, n, windowMs + L);
    }
  }

  lemma UnalignedWindows(windowMs: nat, max: nat, n: nat, hi: int) returns (ws: seq<seq<int>>)
    requires 0 < windowMs <= hi && max > 0 && Fits(windowMs + 1, windowMs, n, hi)
    ensures Greedy(ws, windowMs) && Sorted(Flatten(ws)) && (Flatten(ws) != [] ==> 0 <= Flatten(ws)[0])
    ensures AdmittedInWindows(ws, windowMs, max, windowMs, hi) == max - 1 + n * max
  {
    var train := Train(windowMs + 1, windowMs, max, n);
    TrainIsGreedy(windowMs + 1, windowMs, max, n);
    TrainCounts(windowMs + 1, windowMs, max, n, windowMs, hi);
    ws := PrefixWindow(train, windowMs, max, hi);
  }

  // A window opened just before the span, with every later request at its very end.
  lemma PrefixWindow(train: seq<seq<int>>, windowMs: nat, max: nat, hi: int) returns (ws: seq<seq<int>>)
    requires 0 < windowMs <= hi && max > 0
    requires Greedy(train, windowMs) && (train != [] ==> train[0][0] > windowMs)
    requires Sorted(Flatten(train))
    requires forall i :: 0 <= i < |Flatten(train)| ==> windowMs < Flatten(train)[i]
    ensures Greedy(ws, windowMs) && Sorted(Flatten(ws)) && (Flatten(ws) != [] ==> 0 <= Flatten(ws)[0])
    ensures AdmittedInWindows(ws, windowMs, max, windowMs, hi)
            == max - 1 + AdmittedInWindows(train, windowMs, max, windowMs, hi)
  {
    var w := [0] + Copies(windowMs, max - 1);
    ws := [w] + train;
    GreedyCons(w, train, windowMs);
    assert ws[1..] == train;
    var ds := Answers(w, windowMs, max);
    assert w[1..] == Copies(windowMs, max - 1);
    AllCounted(w[1..], ds[1..], windowMs, hi);
  }

  /** At most `max` requests on any one key in any window's length of time. No run breaks that exactly when `max`
      is at most one or the window has no length. */
  ghost predicate KeepsPromise(windowMs: nat, max: nat) {
    forall from, es, key, lo :: LegalRun(from, es, key, windowMs, max) ==> Within(es, key, lo, windowMs, max)
  }

  ghost predicate Within(es: seq<Event>, key: string, lo: int, windowMs: nat, max: nat) {
    AdmittedOn(es, key, lo, lo + windowMs) <= max
  }

  lemma PeakOfOneWindow(windowMs: nat, max: nat)
    ensures Peak(windowMs, max, windowMs)
            == if max == 0 then 0 else if windowMs == 0 then max else 2 * max - 1
  {
  }

  lemma PromiseKeptExactlyWhen(windowMs: nat, max: nat)
    ensures KeepsPromise(windowMs, max) <==> max <= 1 || windowMs == 0
  {
    PeakOfOneWindow(windowMs, max);
    if max <= 1 || windowMs == 0 {
      forall from, es, key, lo | LegalRun(from, es, key, windowMs, max)
        ensures Within(es, key, lo, windowMs, max)
      {
        SpanBound(from, es, key, windowMs, max, lo, windowMs);
      }
    } else {
      var c := Call(false, None, None, None, None);
      var l := Limiter(windowMs, max, "auth");
      var es, lo := SpanBoundReached(l, c, windowMs);
      assert !Within(es, Key(l.keyPrefix, ClientIp(c)), lo, windowMs, max);
    }
  }

  /** The configured limiters: within some 15 minutes one key can get 19 log-in attempts through in production,
      not 10, and 1999 general requests, not 1000. */
  lemma ConfiguredPeaks()
    ensures Peak(AuthLimiter(false).windowMs, AuthLimiter(false).max, AuthLimiter(false).windowMs) == 19
    ensures Peak(ApiLimiter().windowMs, ApiLimiter().max, ApiLimiter().windowMs) == 1999
    ensures !KeepsPromise(AuthLimiter(false).windowMs, AuthLimiter(false).max)
    ensures !KeepsPromise(ApiLimiter().windowMs, ApiLimiter().max)
  {
    PeakOfOneWindow(AuthLimiter(false).windowMs, AuthLimiter(false).max);
    PeakOfOneWindow(ApiLimiter().windowMs, ApiLimiter().max);
    PromiseKeptExactlyWhen(AuthLimiter(false).windowMs, AuthLimiter(false).max);
    PromiseKeptExactlyWhen(ApiLimiter().windowMs, ApiLimiter().max);
  }
}

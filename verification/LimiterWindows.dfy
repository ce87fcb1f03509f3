/** What the counters mean: a key's requests fall into greedily opened windows, and of each window exactly
    the first `max` requests are admitted. */
module LimiterWindows {
  import opened Optional
  import opened LimiterSpec

  // ----- One key on its own

  // The answers to counted requests at the given times.
  function Replies(r: Option<Record>, windowMs: nat, max: nat, ts: seq<int>): seq<Decision>
    decreases ts
  {
    if ts == [] then []
    else
      var c := Count(r, windowMs, ts[0]);
      [Judge(c, max, ts[0])] + Replies(Some(c), windowMs, max, ts[1..])
  }

  // The record they leave.
  function Final(r: Option<Record>, windowMs: nat, ts: seq<int>): Option<Record>
    decreases ts
  {
    if ts == [] then r else Final(Some(Count(r, windowMs, ts[0])), windowMs, ts[1..])
  }

  function Flatten<T>(xss: seq<seq<T>>): seq<T> {
    if xss == [] then [] else xss[0] + Flatten(xss[1..])
  }

  ghost predicate Sorted(ts: seq<int>) {
    forall i, j :: 0 <= i < j < |ts| ==> ts[i] <= ts[j]
  }

  ghost predicate IsWindow(w: seq<int>, windowMs: nat) {
    w != [] && forall i :: 0 <= i < |w| ==> w[0] <= w[i] <= w[0] + windowMs
  }

  /** Windows opened greedily: each is [start, start + windowMs], and the next one starts with the first
      request that comes later than that. */
  ghost predicate Greedy(ws: seq<seq<int>>, windowMs: nat) {
    && (forall i :: 0 <= i < |ws| ==> IsWindow(ws[i], windowMs))
    && (forall i :: 0 < i < |ws| ==> ws[i][0] > ws[i-1][0] + windowMs)
  }

  function Leading(ts: seq<int>, bound: int): (n: nat)
    ensures n <= |ts|
    ensures forall i :: 0 <= i < n ==> ts[i] <= bound
    ensures n < |ts| ==> ts[n] > bound
  {
    if ts == [] || ts[0] > bound then 0 else 1 + Leading(ts[1..], bound)
  }

  function Windows(ts: seq<int>, windowMs: nat): seq<seq<int>> {
    if ts == [] then []
    else
      var n := Leading(ts, ts[0] + windowMs);
      [ts[..n]] + Windows(ts[n..], windowMs)
  }

  lemma GreedyCons(w: seq<int>, rest: seq<seq<int>>, windowMs: nat)
    requires IsWindow(w, windowMs) && Greedy(rest, windowMs)
    requires rest != [] ==> rest[0][0] > w[0] + windowMs
    ensures Greedy([w] + rest, windowMs)
    ensures Flatten([w] + rest) == w + Flatten(rest)
  {
  }

  /** Every sorted history has such a partition ... */
  lemma {:induction false} WindowsExist(ts: seq<int>, windowMs: nat)
    requires Sorted(ts)
    ensures Greedy(Windows(ts, windowMs), windowMs) && Flatten(Windows(ts, windowMs)) == ts
    ensures ts != [] ==> Windows(ts, windowMs) != [] && Windows(ts, windowMs)[0][0] == ts[0]
    decreases |ts|
  {
    if ts != [] {
      var n := Leading(ts, ts[0] + windowMs);
      var w, later := ts[..n], ts[n..];
      assert ts == w + later;
      WindowsExist(later, windowMs);
      var rest := Windows(later, windowMs);
      assert IsWindow(w, windowMs) && (rest != [] ==> rest[0][0] > w[0] + windowMs);
      GreedyCons(w, rest, windowMs);
      assert Windows(ts, windowMs) == [w] + rest;
    }
  }

  /** ... and only one. */
  lemma {:induction false} WindowsUnique(ws: seq<seq<int>>, vs: seq<seq<int>>, windowMs: nat)
    requires Greedy(ws, windowMs) && Greedy(vs, windowMs) && Flatten(ws) == Flatten(vs)
    ensures ws == vs
    decreases |ws|
  {
    if ws == [] || vs == [] {
      FlattenStart(ws);
      FlattenStart(vs);
    } else {
      FlattenStart(ws);
      FlattenStart(vs);
      NotLonger(ws, vs, windowMs);
      NotLonger(vs, ws, windowMs);
      var ts := Flatten(ws);
      assert ws[0] == ts[..|ws[0]|] == vs[0];
      assert Flatten(ws[1..]) == ts[|ws[0]|..] == Flatten(vs[1..]);
      GreedyTail(ws, windowMs);
      GreedyTail(vs, windowMs);
      WindowsUnique(ws[1..], vs[1..], windowMs);
      assert ws == [ws[0]] + ws[1..] && vs == [vs[0]] + vs[1..];
    }
  }

  lemma FlattenStart(ws: seq<seq<int>>)
    ensures ws != [] && ws[0] != [] ==> Flatten(ws) != [] && Flatten(ws)[0] == ws[0][0]
    ensures ws == [] ==> Flatten(ws) == []
  {
  }

  lemma GreedyTail(ws: seq<seq<int>>, windowMs: nat)
    requires Greedy(ws, windowMs) && ws != []
    ensures Greedy(ws[1..], windowMs)
    ensures |ws| > 1 ==> Flatten(ws[1..])[..1] == [ws[1][0]] && ws[1][0] > ws[0][0] + windowMs
  {
  }

  lemma NotLonger(ws: seq<seq<int>>, vs: seq<seq<int>>, windowMs: nat)
    requires ws != [] && vs != []
    requires Greedy(ws, windowMs) && Greedy(vs, windowMs) && Flatten(ws) == Flatten(vs)
    ensures |ws[0]| <= |vs[0]|
  {
    var ts := Flatten(ws);
    if |vs[0]| < |ws[0]| {
      var n := |vs[0]|;
      assert ts[n] == ws[0][n] && ts[0] == ws[0][0] == vs[0][0];
      assert Flatten(vs[1..]) == ts[n..];
      GreedyTail(vs, windowMs);
      FlattenStart(vs[1..]);
    }
  }

  // The answers within one window.
  function Answers(w: seq<int>, windowMs: nat, max: nat): seq<Decision> {
    seq(|w|, i requires 0 <= i < |w| =>
      if i < max then Admitted else Rejected(CeilSeconds(w[0] + windowMs - w[i])))
  }

  function AllAnswers(ws: seq<seq<int>>, windowMs: nat, max: nat): seq<Decision> {
    if ws == [] then [] else Answers(ws[0], windowMs, max) + AllAnswers(ws[1..], windowMs, max)
  }

  function Rest(r: Record, w: seq<int>, max: nat): seq<Decision> {
    seq(|w|, i requires 0 <= i < |w| =>
      if r.count + i < max then Admitted else Rejected(CeilSeconds(r.resetTime - w[i])))
  }

  lemma OneReply(r: Option<Record>, windowMs: nat, max: nat, t: int, later: seq<int>)
    ensures var c := Count(r, windowMs, t);
            && Replies(r, windowMs, max, [t] + later) == [Judge(c, max, t)] + Replies(Some(c), windowMs, max, later)
            && Final(r, windowMs, [t] + later) == Final(Some(c), windowMs, later)
  {
    assert ([t] + later)[1..] == later;
  }

  lemma {:induction false} SameWindow(r: Record, windowMs: nat, max: nat, w: seq<int>, later: seq<int>)
    requires forall i :: 0 <= i < |w| ==> w[i] <= r.resetTime
    ensures var r' := r.(count := r.count + |w|);
            && Replies(Some(r), windowMs, max, w + later)
               == Rest(r, w, max) + Replies(Some(r'), windowMs, max, later)
            && Final(Some(r), windowMs, w + later) == Final(Some(r'), windowMs, later)
    decreases |w|
  {
    if w == [] {
      assert w + later == later;
    } else {
      var r1 := r.(count := r.count + 1);
      var r' := r.(count := r.count + |w|);
      var tail := Replies(Some(r'), windowMs, max, later);
      Regroup(w[0], w, later);
      OneReply(Some(r), windowMs, max, w[0], w[1..] + later);
      SameWindow(r1, windowMs, max, w[1..], later);
      FirstOfRest(r, w, max);
      assert [Judge(r1, max, w[0])] + (Rest(r1, w[1..], max) + tail) == Rest(r, w, max) + tail;
    }
  }

  lemma Regroup(t: int, w: seq<int>, later: seq<int>)
    requires w != [] && w[0] == t
    ensures w + later == [t] + (w[1..] + later)
  {
  }

  lemma FirstOfRest(r: Record, w: seq<int>, max: nat)
    requires w != []
    ensures var r1 := r.(count := r.count + 1);
            Rest(r, w, max) == [Judge(r1, max, w[0])] + Rest(r1, w[1..], max)
  {
  }

  lemma OneWindow(r: Option<Record>, windowMs: nat, max: nat, w: seq<int>, later: seq<int>)
    requires IsWindow(w, windowMs)
    requires r.Some? ==> Expired(r.value, w[0])
    ensures var r' := Record(|w|, w[0] + windowMs);
            && Replies(r, windowMs, max, w + later)
               == Answers(w, windowMs, max) + Replies(Some(r'), windowMs, max, later)
            && Final(r, windowMs, w + later) == Final(Some(r'), windowMs, later)
  {
    var first := Record(1, w[0] + windowMs);
    Regroup(w[0], w, later);
    OneReply(r, windowMs, max, w[0], w[1..] + later);
    SameWindow(first, windowMs, max, w[1..], later);
    FirstAnswer(w, windowMs, max);
  }

  lemma FirstAnswer(w: seq<int>, windowMs: nat, max: nat)
    requires w != []
    ensures var first := Record(1, w[0] + windowMs);
            Answers(w, windowMs, max) == [Judge(first, max, w[0])] + Rest(first, w[1..], max)
  {
  }

  /** The in-place counter refines the history: window by window, the first `max` requests pass, all later
      ones are told to wait for the window's end, and the record left holds the last window's size. */
  lemma {:induction false} CounterRefinesWindows(
    r: Option<Record>, windowMs: nat, max: nat, ws: seq<seq<int>>)
    requires Greedy(ws, windowMs)
    requires r.Some? && ws != [] ==> Expired(r.value, ws[0][0])
    ensures Replies(r, windowMs, max, Flatten(ws)) == AllAnswers(ws, windowMs, max)
    ensures ws != [] ==>
              var w := ws[|ws|-1];
              Final(r, windowMs, Flatten(ws)) == Some(Record(|w|, w[0] + windowMs))
    decreases |ws|
  {
    if ws != [] {
      OneWindow(r, windowMs, max, ws[0], Flatten(ws[1..]));
      GreedyTail(ws, windowMs);
      CounterRefinesWindows(Some(Record(|ws[0]|, ws[0][0] + windowMs)), windowMs, max, ws[1..]);
    }
  }

  // ----- Lifted to the shared store

  // What a store still remembers about a key at a given time.
  function Live(s: Store, key: string, now: int): Option<Record> {
    if key in s && !Expired(s[key], now) then Some(s[key]) else None
  }

  function HitTimes(es: seq<Event>, key: string): seq<int> {
    if es == [] then []
    else (if Hits(es[0], key) then [es[0].now] else []) + HitTimes(es[1..], key)
  }

  // The answers to the counted requests on a key.
  function RepliesOn(s: Store, es: seq<Event>, key: string): (ds: seq<Decision>)
    ensures |ds| == |HitTimes(es, key)|
    decreases es
  {
    if es == [] then []
    else (if Hits(es[0], key) then [Verdict(s, es[0])] else []) + RepliesOn(Next(s, es[0]), es[1..], key)
  }

  /** Whoever counts on this key counts with these settings. */
  ghost predicate Uniform(es: seq<Event>, key: string, windowMs: nat, max: nat) {
    forall i :: 0 <= i < |es| && Hits(es[i], key) ==>
      es[i].limiter.windowMs == windowMs && es[i].limiter.max == max
  }

  function Remembered(r: Option<Record>, now: int): Option<Record> {
    if r.Some? && !Expired(r.value, now) then r else None
  }

  lemma {:induction false} StoreRunsEachKey(
    s: Store, r: Option<Record>, from: int, es: seq<Event>, key: string, windowMs: nat, max: nat, now: int)
    requires Ordered(from, es) && NoReset(es) && Uniform(es, key, windowMs, max)
    requires Live(s, key, from) == Remembered(r, from)
    requires from <= now && forall i :: 0 <= i < |es| ==> es[i].now <= now
    ensures RepliesOn(s, es, key) == Replies(r, windowMs, max, HitTimes(es, key))
    ensures Live(After(s, es), key, now) == Remembered(Final(r, windowMs, HitTimes(es, key)), now)
    decreases es
  {
    if es != [] {
      var e := es[0];
      var tail := HitTimes(es[1..], key);
      assert Uniform(es[1..], key, windowMs, max) by {
        assert forall i :: 0 <= i < |es[1..]| ==> es[1..][i] == es[i+1];
      }
      if Hits(e, key) {
        assert e == es[0];
        var c := Count(r, windowMs, e.now);
        assert Count(Lookup(s, key), windowMs, e.now) == c;
        StoreRunsEachKey(Next(s, e), Some(c), e.now, es[1..], key, windowMs, max, now);
        assert ([e.now] + tail)[1..] == tail;
      } else {
        StoreRunsEachKey(Next(s, e), r, e.now, es[1..], key, windowMs, max, now);
        assert [] + tail == tail;
      }
    }
  }

  lemma {:induction false} HitTimesSorted(from: int, es: seq<Event>, key: string)
    requires Ordered(from, es)
    ensures Sorted(HitTimes(es, key))
    ensures HitTimes(es, key) != [] ==> from <= HitTimes(es, key)[0]
    decreases es
  {
    if es != [] {
      HitTimesSorted(es[0].now, es[1..], key);
    }
  }

  ghost predicate LegalRun(from: int, es: seq<Event>, key: string, windowMs: nat, max: nat) {
    Ordered(from, es) && NoReset(es) && Uniform(es, key, windowMs, max)
  }

  /** In any run, whatever other keys, limiters and sweeps do meanwhile, a key's answers are those of the
      greedy windows of its own request times, and a record that is still live counts the requests of the
      window now open. */
  lemma HistoryRefinement(
    from: int, es: seq<Event>, key: string, windowMs: nat, max: nat, ws: seq<seq<int>>, now: int)
    requires LegalRun(from, es, key, windowMs, max)
    requires Greedy(ws, windowMs) && Flatten(ws) == HitTimes(es, key)
    requires from <= now && forall i :: 0 <= i < |es| ==> es[i].now <= now
    ensures RepliesOn(map[], es, key) == AllAnswers(ws, windowMs, max)
    ensures Live(After(map[], es), key, now)
            == if ws != [] && now <= ws[|ws|-1][0] + windowMs
               then Some(Record(|ws[|ws|-1]|, ws[|ws|-1][0] + windowMs)) else None
  {
    StoreRunsEachKey(map[], None, from, es, key, windowMs, max, now);
    CounterRefinesWindows(None, windowMs, max, ws);
  }
}

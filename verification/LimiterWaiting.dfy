/** What a rejected client can rely on, and how large the store can grow. */
module LimiterWaiting {
  import opened Optional
  import opened LimiterSpec
  import opened LimiterWindows
  import opened LimiterBounds

  // The key is used up until resetTime, or the record has expired and been swept.
  ghost predicate UsedUp(s: Store, key: string, max: nat, resetTime: int, now: int) {
    if key in s then s[key].resetTime == resetTime && s[key].count >= max else now > resetTime
  }

  ghost predicate HitsBy(es: seq<Event>, key: string, time: int) {
    forall i :: 0 <= i < |es| && Hits(es[i], key) ==> es[i].now <= time
  }

  lemma {:induction false} StaysUsedUp(
    s: Store, from: int, es: seq<Event>, key: string, windowMs: nat, max: nat, resetTime: int, until: int)
    requires LegalRun(from, es, key, windowMs, max) && HitsBy(es, key, resetTime)
    requires UsedUp(s, key, max, resetTime, from)
    requires from <= until && forall i :: 0 <= i < |es| ==> es[i].now <= until
    ensures forall i :: 0 <= i < |RepliesOn(s, es, key)| ==> RepliesOn(s, es, key)[i].Rejected?
    ensures UsedUp(After(s, es), key, max, resetTime, until)
    decreases es
  {
    if es != [] {
      var e := es[0];
      assert forall i :: 0 <= i < |es[1..]| ==> es[1..][i] == es[i+1];
      assert Hits(e, key) ==> e.limiter.max == max && e.now <= resetTime;
      StaysUsedUp(Next(s, e), e.now, es[1..], key, windowMs, max, resetTime, until);
    }
  }

  /** From a rejection on, as long as further requests on the key come by `resetTime`, each of them is
      rejected too and `resetTime` does not move; a request after those is admitted exactly when it comes
      later than `resetTime`. Other keys, limiters and sweeps make no difference. */
  lemma RejectedUntilReset(s: Store, e: Event, es: seq<Event>, f: Event, key: string, windowMs: nat, max: nat)
    requires Hits(e, key) && Verdict(s, e).Rejected? && max > 0
    requires LegalRun(e.now, [e] + es + [f], key, windowMs, max) && Hits(f, key)
    requires HitsBy(es, key, Next(s, e)[key].resetTime)
    ensures var s' := Next(s, e);
            && (forall i :: 0 <= i < |RepliesOn(s', es, key)| ==> RepliesOn(s', es, key)[i].Rejected?)
            && (f.now <= s'[key].resetTime ==>
                  key in After(s', es) && After(s', es)[key].resetTime == s'[key].resetTime)
            && (Verdict(After(s', es), f) == Admitted <==> f.now > s'[key].resetTime)
  {
    var all := [e] + es + [f];
    var s', resetTime := Next(s, e), Next(s, e)[key].resetTime;
    assert all[0] == e && all[1..] == es + [f];
    assert forall i :: 0 <= i < |es| ==> all[i+1] == es[i];
    assert all[|es| + 1] == f;
    OrderedInit(e.now, es, f);
    StaysUsedUp(s', e.now, es, key, windowMs, max, resetTime, f.now);
  }

  lemma {:induction false} OrderedInit(from: int, es: seq<Event>, f: Event)
    requires Ordered(from, es + [f])
    ensures Ordered(from, es) && from <= f.now && forall i :: 0 <= i < |es| ==> es[i].now <= f.now
    decreases es
  {
    if es != [] {
      assert (es + [f])[0] == es[0] && (es + [f])[1..] == es[1..] + [f];
      OrderedInit(es[0].now, es[1..], f);
      assert forall i :: 0 < i < |es| ==> es[i] == es[1..][i-1];
    }
  }

  /** The Retry-After header names the time remaining, rounded up to whole seconds: a client that waits that many
      seconds and one millisecond more gets in, and one that waits a second less does not. One that waits exactly
      that long gets in if and only if the time remaining was not a whole number of seconds; otherwise it is
      rejected once more, and told to wait zero seconds. */
  lemma RetryAfterGuarantee(s: Store, e: Event, es: seq<Event>, f: Event, key: string, windowMs: nat, max: nat)
    requires Hits(e, key) && Verdict(s, e).Rejected? && max > 0
    requires LegalRun(e.now, [e] + es + [f], key, windowMs, max) && Hits(f, key)
    requires HitsBy(es, key, Next(s, e)[key].resetTime)
    ensures var wait := 1000 * Verdict(s, e).retryAfter;
            var remaining := Next(s, e)[key].resetTime - e.now;
            var answer := Verdict(After(Next(s, e), es), f);
            && remaining <= wait < remaining + 1000
            && (f.now >= e.now + wait + 1 ==> answer == Admitted)
            && (f.now <= e.now + wait - 1000 ==> answer.Rejected?)
            && (f.now == e.now + wait ==>
                  answer == if remaining % 1000 == 0 then Rejected(0) else Admitted)
  {
    RejectedUntilReset(s, e, es, f, key, windowMs, max);
    var s'' := After(Next(s, e), es);
    if f.now == Next(s, e)[key].resetTime {
      assert Count(Lookup(s'', key), f.limiter.windowMs, f.now).resetTime == f.now;
    }
  }

  // Use up the window at 0, be rejected a whole number of seconds before it ends, and wait exactly that long.
  function ImpatientTimes(windowMs: nat, max: nat): seq<int> {
    Copies(0, max) + [windowMs % 1000, windowMs]
  }

  /** It happens from the empty store, with every limiter that lets anything through: the last request of this
      run comes exactly Retry-After seconds after the rejection before it, and is told to wait zero seconds. */
  lemma ExactWaitRejected(l: Limiter, c: Call) returns (es: seq<Event>)
    requires l.max > 0 && !Bypasses(l, c)
    ensures var key := Key(l.keyPrefix, ClientIp(c));
            var wait := l.windowMs / 1000;
            && LegalRun(0, es, key, l.windowMs, l.max)
            && HitTimes(es, key) == ImpatientTimes(l.windowMs, l.max)
            && RepliesOn(map[], es, key) == seq(l.max, i => Admitted) + [Rejected(wait), Rejected(0)]
            && l.windowMs % 1000 + 1000 * wait == l.windowMs
  {
    var ts := ImpatientTimes(l.windowMs, l.max);
    es := AsRun(ts, l, c);
    ImpatientWindow(l.windowMs, l.max);
    RunHits(0, ts, l, c);
    AnswersInOneWindow(es, Key(l.keyPrefix, ClientIp(c)), l.windowMs, l.max);
    ImpatientAnswers(l.windowMs, l.max);
  }

  lemma ImpatientWindow(windowMs: nat, max: nat)
    requires max > 0
    ensures var ts := ImpatientTimes(windowMs, max); Sorted(ts) && ts[0] == 0 && IsWindow(ts, windowMs)
  {
  }

  // A run whose requests on a key all fall into one window.
  lemma AnswersInOneWindow(es: seq<Event>, key: string, windowMs: nat, max: nat)
    requires LegalRun(0, es, key, windowMs, max) && IsWindow(HitTimes(es, key), windowMs)
    ensures RepliesOn(map[], es, key) == Answers(HitTimes(es, key), windowMs, max)
  {
    var w := HitTimes(es, key);
    GreedyCons(w, [], windowMs);
    var ws := [w] + [];
    assert ws[1..] == [];
    var now := LatestOf(0, es);
    HistoryRefinement(0, es, key, windowMs, max, ws, now);
    assert AllAnswers(ws, windowMs, max) == Answers(w, windowMs, max) + AllAnswers(ws[1..], windowMs, max);
  }

  lemma ImpatientAnswers(windowMs: nat, max: nat)
    requires max > 0
    ensures Answers(ImpatientTimes(windowMs, max), windowMs, max)
            == seq(max, i => Admitted) + [Rejected(windowMs / 1000), Rejected(0)]
  {
    assert CeilSeconds(windowMs - windowMs % 1000) == windowMs / 1000;
  }

  /** With the configured limiters: rejected with a wait of 900 seconds, and after 900 seconds rejected again. */
  lemma ConfiguredExactWaits(c: Call) returns (auth: seq<Event>, api: seq<Event>)
    requires !Bypasses(AuthLimiter(false), c) && !Bypasses(ApiLimiter(), c)
    ensures RepliesOn(map[], auth, Key("auth", ClientIp(c)))
            == seq(10, i => Admitted) + [Rejected(900), Rejected(0)]
    ensures RepliesOn(map[], api, Key("api", ClientIp(c)))
            == seq(1000, i => Admitted) + [Rejected(900), Rejected(0)]
  {
    auth := ExactWaitRejected(AuthLimiter(false), c);
    api := ExactWaitRejected(ApiLimiter(), c);
  }

  // ----- The size of the store

  // Every record was last opened by some counted request of the run.
  ghost predicate Explained(s: Store, es: seq<Event>) {
    forall key :: key in s ==>
      exists i :: 0 <= i < |es| && Hits(es[i], key) && s[key].resetTime == es[i].now + es[i].limiter.windowMs
  }

  lemma StepExplains(s: Store, es: seq<Event>, e: Event)
    requires Explained(s, es)
    ensures Explained(Next(s, e), es + [e])
  {
    var fs := es + [e];
    forall key | key in Next(s, e)
      ensures exists i :: 0 <= i < |fs| && Hits(fs[i], key)
                && Next(s, e)[key].resetTime == fs[i].now + fs[i].limiter.windowMs
    {
      if key in s && Next(s, e)[key].resetTime == s[key].resetTime {
        var i :| 0 <= i < |es| && Hits(es[i], key) && s[key].resetTime == es[i].now + es[i].limiter.windowMs;
        assert fs[i] == es[i];
      } else {
        assert fs[|es|] == e && Hits(e, key);
      }
    }
  }

  lemma {:induction false} RunExplains(es: seq<Event>)
    ensures Explained(After(map[], es), es)
    decreases |es|
  {
    if es != [] {
      var n := |es| - 1;
      var init, e := es[..n], es[n];
      assert es == init + [e];
      RunExplains(init);
      AfterConcat(map[], init, [e]);
      StepExplains(After(map[], init), init, e);
    }
  }

  lemma {:induction false} NoStaleRecords(s: Store, from: int, es: seq<Event>, swept: int)
    requires Ordered(from, es) && swept <= from
    requires forall key :: key in s ==> s[key].resetTime >= swept
    ensures forall key :: key in After(s, es) ==> After(s, es)[key].resetTime >= swept
    decreases es
  {
    if es != [] {
      NoStaleRecords(Next(s, es[0]), es[0].now, es[1..], swept);
    }
  }

  // The keys with a counted request whose window reaches back no further than `age` before now.
  function RecentKeys(es: seq<Event>, now: int, age: nat): set<string> {
    set i | 0 <= i < |es| && es[i].Request? && !Bypasses(es[i].limiter, es[i].call)
            && now <= es[i].now + es[i].limiter.windowMs + age :: KeyOf(es[i])
  }

  /** When the sweep last ran at most `age` ms ago, every stored key had a counted request within its limiter's
      window plus `age`; so the store is no larger than the set of recently active keys. */
  lemma StoreHoldsRecentKeysOnly(from: int, before: seq<Event>, swept: int, after: seq<Event>, now: int, age: nat)
    requires Ordered(from, before + [Sweep(swept)] + after) && now <= swept + age
    ensures var es := before + [Sweep(swept)] + after;
            && After(map[], es).Keys <= RecentKeys(es, now, age)
            && |After(map[], es)| <= |RecentKeys(es, now, age)|
  {
    var es := before + [Sweep(swept)] + after;
    var s := After(map[], es);
    RunExplains(es);
    assert es == before + ([Sweep(swept)] + after);
    AfterConcat(map[], before, [Sweep(swept)] + after);
    OrderedSuffix(from, before, swept, after);
    var u := Unexpired(After(map[], before), swept);
    assert ([Sweep(swept)] + after)[1..] == after;
    assert s == After(u, after);
    NoStaleRecords(u, swept, after, swept);
    forall key | key in s
      ensures key in RecentKeys(es, now, age)
    {
      var i :| 0 <= i < |es| && Hits(es[i], key) && s[key].resetTime == es[i].now + es[i].limiter.windowMs;
      assert KeyOf(es[i]) == key;
    }
    Subset(s.Keys, RecentKeys(es, now, age));
  }

  lemma {:induction false} OrderedSuffix(from: int, before: seq<Event>, swept: int, after: seq<Event>)
    requires Ordered(from, before + [Sweep(swept)] + after)
    ensures Ordered(swept, after)
    decreases before
  {
    var es := before + [Sweep(swept)] + after;
    if before == [] {
      assert es[1..] == after;
    } else {
      assert es[1..] == before[1..] + [Sweep(swept)] + after;
      OrderedSuffix(before[0].now, before[1..], swept, after);
    }
  }

  lemma {:induction false} Subset(a: set<string>, b: set<string>)
    requires a <= b
    ensures |a| <= |b|
    decreases a
  {
    if a != {} {
      var x :| x in a;
      Subset(a - {x}, b - {x});
    }
  }
}

/** Who can influence an answer: the sweep never does, and a request is answered from its own key alone. */
module LimiterIsolation {
  import opened Optional
  import opened LimiterSpec

  // The requests on the selected keys, and the resets; the sweeps and all other requests are dropped.
  function Only(es: seq<Event>, keys: string -> bool): seq<Event> {
    if es == [] then []
    else (if es[0].Reset? || (es[0].Request? && keys(KeyOf(es[0]))) then [es[0]] else []) + Only(es[1..], keys)
  }

  // The answers given to the requests on the selected keys.
  function VerdictsOn(s: Store, es: seq<Event>, keys: string -> bool): seq<Decision>
    decreases es
  {
    if es == [] then []
    else (if es[0].Request? && keys(KeyOf(es[0])) then [Verdict(s, es[0])] else [])
         + VerdictsOn(Next(s, es[0]), es[1..], keys)
  }

  /** No sweep reads a later time than a request that comes after it. */
  ghost predicate InTime(es: seq<Event>) {
    forall i, j :: 0 <= i < j < |es| && es[i].Sweep? && es[j].Request? ==> es[i].now <= es[j].now
  }

  // Whatever requests come, they find the record expired.
  ghost predicate Outdated(r: Record, es: seq<Event>) {
    forall j :: 0 <= j < |es| && es[j].Request? ==> Expired(r, es[j].now)
  }

  // Under the selected keys the swept store lacks nothing but outdated records.
  ghost predicate Lags(a: Store, b: Store, keys: string -> bool, es: seq<Event>) {
    forall k :: keys(k) ==> Lookup(a, k) == Lookup(b, k) || (k !in a && k in b && Outdated(b[k], es))
  }

  lemma OutdatedTail(r: Record, es: seq<Event>)
    requires es != [] && Outdated(r, es)
    ensures Outdated(r, es[1..])
  {
    assert forall j :: 0 <= j < |es[1..]| ==> es[1..][j] == es[j+1];
  }

  lemma StepLags(a: Store, b: Store, keys: string -> bool, es: seq<Event>)
    requires es != [] && Lags(a, b, keys, es)
    requires es[0].Request? && keys(KeyOf(es[0]))
    ensures Verdict(a, es[0]) == Verdict(b, es[0])
    ensures Lags(Next(a, es[0]), Next(b, es[0]), keys, es[1..])
  {
    var e := es[0];
    var key := KeyOf(e);
    assert Count(Lookup(a, key), e.limiter.windowMs, e.now) == Count(Lookup(b, key), e.limiter.windowMs, e.now);
    forall k | keys(k) && k !in a && k in b && Outdated(b[k], es) {
      OutdatedTail(b[k], es);
    }
  }

  lemma OtherStepLags(a: Store, b: Store, keys: string -> bool, es: seq<Event>)
    requires es != [] && Lags(a, b, keys, es) && InTime(es)
    requires es[0].Sweep? || (es[0].Request? && !keys(KeyOf(es[0])))
    ensures Lags(Next(a, es[0]), b, keys, es[1..])
  {
    var e, after := es[0], Next(a, es[0]);
    forall k | keys(k)
      ensures Lookup(after, k) == Lookup(b, k) || (k !in after && k in b && Outdated(b[k], es[1..]))
    {
      if k in a && k !in after {
        assert forall j :: 0 <= j < |es[1..]| ==> es[1..][j] == es[j+1];
      } else if k !in a && k in b {
        OutdatedTail(b[k], es);
      }
    }
  }

  /** One simulation gives every result of this module: a store that lags behind another under the selected keys
      answers the requests on those keys as the other does, although it also sees every other request and every
      sweep. The requests themselves may read the clock in any order. */
  lemma {:induction false} Simulation(a: Store, b: Store, keys: string -> bool, es: seq<Event>)
    requires Lags(a, b, keys, es) && InTime(es)
    ensures VerdictsOn(a, es, keys) == Verdicts(b, Only(es, keys))
    decreases es
  {
    if es != [] {
      var e := es[0];
      var rest := Only(es[1..], keys);
      assert InTime(es[1..]) by {
        assert forall j :: 0 <= j < |es[1..]| ==> es[1..][j] == es[j+1];
      }
      if e.Request? && keys(KeyOf(e)) {
        StepLags(a, b, keys, es);
        Simulation(Next(a, e), Next(b, e), keys, es[1..]);
        assert ([e] + rest)[1..] == rest;
      } else if e.Reset? {
        Simulation(Next(a, e), Next(b, e), keys, es[1..]);
        assert ([e] + rest)[1..] == rest;
      } else {
        OtherStepLags(a, b, keys, es);
        Simulation(Next(a, e), b, keys, es[1..]);
        assert Only(es, keys) == [] + rest == rest;
      }
    }
  }

  // ----- The sweep is invisible

  function WithoutSweeps(es: seq<Event>): seq<Event> {
    if es == [] then []
    else (if es[0].Sweep? then [] else [es[0]]) + WithoutSweeps(es[1..])
  }

  lemma {:induction false} EveryKey(s: Store, es: seq<Event>)
    ensures Only(es, key => true) == WithoutSweeps(es)
    ensures VerdictsOn(s, es, key => true) == Verdicts(s, es)
    decreases es
  {
    if es != [] {
      EveryKey(Next(s, es[0]), es[1..]);
    }
  }

  /** Two runs that differ only in where the sweep ran, and how often, answer every request alike, the
      Retry-After value included. */
  lemma SweepsAreInvisible(s: Store, es: seq<Event>, fs: seq<Event>)
    requires InTime(es) && InTime(fs)
    requires WithoutSweeps(es) == WithoutSweeps(fs)
    ensures Verdicts(s, es) == Verdicts(s, fs)
  {
    var keys := (key: string) => true;
    EveryKey(s, es);
    EveryKey(s, fs);
    Simulation(s, s, keys, es);
    Simulation(s, s, keys, fs);
  }

  /** Two runs with the same events at the same times; only who asks may differ. */
  ghost predicate SameTiming(es: seq<Event>, fs: seq<Event>) {
    && |es| == |fs|
    && forall i :: 0 <= i < |es| ==>
         && es[i].now == fs[i].now
         && (es[i].Sweep? <==> fs[i].Sweep?)
         && (es[i].Reset? <==> fs[i].Reset?)
  }

  // With this timing no sweep changes an answer, whoever asks and whatever is stored at the start.
  ghost predicate Harmless(es: seq<Event>) {
    forall s, fs :: SameTiming(es, fs) ==> Verdicts(s, fs) == Verdicts(s, WithoutSweeps(fs))
  }

  /** The exact condition on the clock: without resets, the sweeps of a timing are invisible in all its runs if
      and only if none of them reads a later time than a later request does. */
  lemma SweepsHarmlessExactlyWhen(es: seq<Event>)
    requires NoReset(es)
    ensures Harmless(es) <==> InTime(es)
  {
    if InTime(es) {
      forall s, fs | SameTiming(es, fs)
        ensures Verdicts(s, fs) == Verdicts(s, WithoutSweeps(fs))
      {
        NoSweepsLeft(fs);
        SweepsAreInvisible(s, fs, WithoutSweeps(fs));
      }
    } else {
      var i, j :| 0 <= i < j < |es| && es[i].Sweep? && es[j].Request? && es[i].now > es[j].now;
      LateSweepShows(es, i, j);
    }
  }

  lemma {:induction false} NoSweepsLeft(es: seq<Event>)
    ensures WithoutSweeps(WithoutSweeps(es)) == WithoutSweeps(es)
    ensures forall i :: 0 <= i < |WithoutSweeps(es)| ==> !WithoutSweeps(es)[i].Sweep?
    decreases es
  {
    if es != [] {
      var rest := WithoutSweeps(es[1..]);
      NoSweepsLeft(es[1..]);
      assert ([es[0]] + rest)[1..] == rest && [] + rest == rest;
    }
  }

  lemma {:induction false} VerdictsConcat(s: Store, xs: seq<Event>, ys: seq<Event>)
    ensures Verdicts(s, xs + ys) == Verdicts(s, xs) + Verdicts(After(s, xs), ys)
    decreases xs
  {
    if xs == [] {
      assert xs + ys == ys;
    } else {
      var next := Next(s, xs[0]);
      var first := if xs[0].Request? then [Verdict(s, xs[0])] else [];
      assert (xs + ys)[0] == xs[0] && (xs + ys)[1..] == xs[1..] + ys;
      VerdictsConcat(next, xs[1..], ys);
      assert Verdicts(s, xs + ys) == first + (Verdicts(next, xs[1..]) + Verdicts(After(next, xs[1..]), ys));
      assert Verdicts(s, xs) == first + Verdicts(next, xs[1..]);
    }
  }

  lemma {:induction false} WithoutSweepsConcat(xs: seq<Event>, ys: seq<Event>)
    ensures WithoutSweeps(xs + ys) == WithoutSweeps(xs) + WithoutSweeps(ys)
    decreases xs
  {
    if xs == [] {
      assert xs + ys == ys;
    } else {
      assert (xs + ys)[1..] == xs[1..] + ys;
      WithoutSweepsConcat(xs[1..], ys);
    }
  }

  // Sweeps are not answered.
  lemma {:induction false} SameNumberOfAnswers(s: Store, b: Store, es: seq<Event>)
    ensures |Verdicts(s, es)| == |Verdicts(b, WithoutSweeps(es))|
    decreases es
  {
    if es != [] {
      var e, rest := es[0], WithoutSweeps(es[1..]);
      SameNumberOfAnswers(Next(s, e), if e.Sweep? then b else Next(b, e), es[1..]);
      assert ([e] + rest)[1..] == rest && [] + rest == rest;
    }
  }

  // What happens to a record nobody counts on.
  lemma {:induction false} OnlySwept(s: Store, es: seq<Event>, key: string)
    requires NoReset(es) && forall i :: 0 <= i < |es| ==> !Hits(es[i], key)
    ensures key in After(s, es) ==> key in s && After(s, es)[key] == s[key]
    ensures key in s ==>
              (key in After(s, es) <==>
               forall i :: 0 <= i < |es| && es[i].Sweep? ==> !Expired(s[key], es[i].now))
    decreases es
  {
    if es != [] {
      assert forall i :: 0 < i < |es| ==> es[i] == es[1..][i-1];
      assert forall i :: 0 <= i < |es[1..]| ==> es[1..][i] == es[i+1];
      OnlySwept(Next(s, es[0]), es[1..], key);
    }
  }

  lemma {:induction false} WithoutSweepsMembers(es: seq<Event>)
    ensures forall e :: e in WithoutSweeps(es) <==> e in es && !e.Sweep?
    decreases es
  {
    if es != [] {
      WithoutSweepsMembers(es[1..]);
      assert forall e :: e in es <==> e == es[0] || e in es[1..];
    }
  }

  // Everyone but the request at j asks another limiter.
  function Recast(es: seq<Event>, j: nat): seq<Event> {
    var c := Call(false, None, None, None, None);
    seq(|es|, i requires 0 <= i < |es| =>
      if es[i].Request? then Request(Limiter(0, 1, if i == j then "auth" else "api"), c, es[i].now) else es[i])
  }

  lemma RecastPrefix(es: seq<Event>, i: nat, j: nat)
    requires NoReset(es) && i < j < |es| && es[i].Sweep? && es[j].Request? && es[i].now > es[j].now
    ensures var pre, f := Recast(es, j)[..j], Recast(es, j)[j];
            var s: Store := map[KeyOf(f) := Record(1, f.now)];
            && Verdict(After(s, pre), f) == Admitted
            && Verdict(After(s, WithoutSweeps(pre)), f) == Rejected(0)
  {
    var pre, f := Recast(es, j)[..j], Recast(es, j)[j];
    var key := KeyOf(f);
    var s: Store := map[key := Record(1, f.now)];
    forall k | 0 <= k < |pre|
      ensures !Hits(pre[k], key)
    {
      KeysCollideExactlyWhen("auth", "api");
    }
    var calm := WithoutSweeps(pre);
    WithoutSweepsMembers(pre);
    forall k | 0 <= k < |calm|
      ensures !calm[k].Reset? && !calm[k].Sweep? && !Hits(calm[k], key)
    {
      assert calm[k] in calm;
      var m :| 0 <= m < |pre| && pre[m] == calm[k];
    }
    assert pre[i].Sweep? && Expired(s[key], pre[i].now);
    OnlySwept(s, pre, key);
    OnlySwept(s, calm, key);
  }

  // Where answers differ at one request, so do the runs around it.
  lemma DifferentAnswerShows(s: Store, pre: seq<Event>, f: Event, post: seq<Event>)
    requires f.Request? && Verdict(After(s, pre), f) != Verdict(After(s, WithoutSweeps(pre)), f)
    ensures var fs := pre + ([f] + post); Verdicts(s, fs) != Verdicts(s, WithoutSweeps(fs))
  {
    var calm, tail, calmTail := WithoutSweeps(pre), [f] + post, [f] + WithoutSweeps(post);
    assert tail[1..] == post && calmTail[1..] == WithoutSweeps(post);
    assert WithoutSweeps(tail) == calmTail;
    WithoutSweepsConcat(pre, tail);
    VerdictsConcat(s, pre, tail);
    VerdictsConcat(s, calm, calmTail);
    SameNumberOfAnswers(s, s, pre);
    var n := |Verdicts(s, pre)|;
    assert Verdicts(s, pre + tail)[n] == Verdict(After(s, pre), f);
    assert Verdicts(s, calm + calmTail)[n] == Verdict(After(s, calm), f);
  }

  lemma RecastTiming(es: seq<Event>, j: nat)
    ensures SameTiming(es, Recast(es, j))
  {
  }

  lemma LateSweepShows(es: seq<Event>, i: nat, j: nat)
    requires NoReset(es) && i < j < |es| && es[i].Sweep? && es[j].Request? && es[i].now > es[j].now
    ensures !Harmless(es)
  {
    var fs := Recast(es, j);
    var pre, f, post := fs[..j], fs[j], fs[j+1..];
    var s: Store := map[KeyOf(f) := Record(1, f.now)];
    assert fs == pre + ([f] + post);
    RecastTiming(es, j);
    RecastPrefix(es, i, j);
    DifferentAnswerShows(s, pre, f, post);
  }

  /** For example, a sweep at 2 forgets the record a request at 1 would still have found. */
  lemma SweepVisibleWhenClockTurnsBack()
    ensures exists s, es, fs ::
              WithoutSweeps(es) == WithoutSweeps(fs) && Verdicts(s, es) != Verdicts(s, fs)
  {
    var c := Call(false, None, None, None, None);
    var es := [Sweep(2), Request(Limiter(1, 1, "auth"), c, 1)];
    LateSweepShows(es, 0, 1);
    var s, fs :| SameTiming(es, fs) && Verdicts(s, fs) != Verdicts(s, WithoutSweeps(fs));
    NoSweepsLeft(fs);
  }

  // ----- Keys do not interfere, and limiters sharing the store behave as if each had its own

  function Restrict(s: Store, keys: string -> bool): Store {
    map k | k in s && keys(k) :: s[k]
  }

  /** A key's answers are those of a run with the requests on that key only, on a private store. */
  lemma KeysDoNotInterfere(s: Store, es: seq<Event>, key: string)
    requires InTime(es)
    ensures var alone := (k: string) => k == key;
            VerdictsOn(s, es, alone) == Verdicts(Restrict(s, alone), Only(es, alone))
  {
    var alone := (k: string) => k == key;
    Simulation(s, Restrict(s, alone), alone, es);
  }

  ghost predicate ColonFree(prefix: string) {
    ':' !in prefix
  }

  lemma KeyPrefix(p: string, q: string, ip: string)
    requires ColonFree(p) && ColonFree(q)
    ensures p + ":" <= Key(q, ip) <==> p == q
  {
    var a, b := p + ":", Key(q, ip);
    if a <= b {
      assert forall i :: 0 <= i < |a| ==> b[i] == a[i];
      assert forall i :: 0 <= i < |p| ==> a[i] != ':';
      assert forall i :: 0 <= i < |q| ==> b[i] != ':';
      assert a[|p|] == b[|p|] == ':' && b[|q|] == ':';
      assert p == a[..|p|] == b[..|q|] == q;
    }
  }

  /** Exactly when two prefixes can produce the same key: one, with its colon, starts the other.
      Distinct colon-free prefixes never collide, whatever the address strings are. */
  lemma KeysCollideExactlyWhen(p: string, q: string)
    ensures (exists a, b :: Key(p, a) == Key(q, b)) <==> (p + ":" <= q + ":" || q + ":" <= p + ":")
    ensures ColonFree(p) && ColonFree(q) ==> forall a, b :: Key(p, a) == Key(q, b) ==> p == q && a == b
  {
    if p + ":" <= q + ":" {
      assert Key(p, (q + ":")[|p| + 1..]) == Key(q, "");
    }
    if q + ":" <= p + ":" {
      assert Key(q, (p + ":")[|q| + 1..]) == Key(p, "");
    }
    forall a, b | Key(p, a) == Key(q, b)
      ensures p + ":" <= q + ":" || q + ":" <= p + ":"
      ensures ColonFree(p) && ColonFree(q) ==> p == q && a == b
    {
      var k := Key(p, a);
      assert p + ":" == k[..|p| + 1] && q + ":" == k[..|q| + 1];
      if ColonFree(p) && ColonFree(q) {
        KeyPrefix(p, q, b);
        assert a == k[|p| + 1..] && b == k[|q| + 1..];
      }
    }
  }

  function ByLimiter(es: seq<Event>, prefix: string): seq<Event> {
    if es == [] then []
    else (if es[0].Reset? || (es[0].Request? && es[0].limiter.keyPrefix == prefix) then [es[0]] else [])
         + ByLimiter(es[1..], prefix)
  }

  function VerdictsBy(s: Store, es: seq<Event>, prefix: string): seq<Decision>
    decreases es
  {
    if es == [] then []
    else (if es[0].Request? && es[0].limiter.keyPrefix == prefix then [Verdict(s, es[0])] else [])
         + VerdictsBy(Next(s, es[0]), es[1..], prefix)
  }

  ghost predicate ColonFreePrefixes(es: seq<Event>) {
    forall i :: 0 <= i < |es| && es[i].Request? ==> ColonFree(es[i].limiter.keyPrefix)
  }

  lemma {:induction false} LimiterKeys(s: Store, es: seq<Event>, prefix: string)
    requires ColonFree(prefix) && ColonFreePrefixes(es)
    ensures var own := (k: string) => prefix + ":" <= k;
            VerdictsBy(s, es, prefix) == VerdictsOn(s, es, own) && ByLimiter(es, prefix) == Only(es, own)
    decreases es
  {
    if es != [] {
      if es[0].Request? {
        KeyPrefix(prefix, es[0].limiter.keyPrefix, ClientIp(es[0].call));
      }
      assert ColonFreePrefixes(es[1..]);
      LimiterKeys(Next(s, es[0]), es[1..], prefix);
    }
  }

  /** The limiters write to one shared map, yet each answers exactly as it would with a map of its own
      that only its own requests and the resets reach. */
  lemma LimitersDoNotInterfere(s: Store, es: seq<Event>, prefix: string)
    requires InTime(es) && ColonFree(prefix) && ColonFreePrefixes(es)
    ensures VerdictsBy(s, es, prefix)
            == Verdicts(Restrict(s, k => prefix + ":" <= k), ByLimiter(es, prefix))
  {
    var own := (k: string) => prefix + ":" <= k;
    LimiterKeys(s, es, prefix);
    Simulation(s, Restrict(s, own), own, es);
  }

  ghost predicate ConfiguredOnly(es: seq<Event>, isDev: bool) {
    forall i :: 0 <= i < |es| && es[i].Request? ==>
      es[i].limiter == AuthLimiter(isDev) || es[i].limiter == ApiLimiter()
  }

  /** So log-in attempts never use up the general allowance, nor the other way round. */
  lemma ConfiguredLimitersDoNotInterfere(es: seq<Event>, isDev: bool)
    requires InTime(es) && ConfiguredOnly(es, isDev)
    ensures VerdictsBy(map[], es, "auth") == Verdicts(map[], ByLimiter(es, "auth"))
    ensures VerdictsBy(map[], es, "api") == Verdicts(map[], ByLimiter(es, "api"))
  {
    assert ColonFreePrefixes(es);
    var none: Store := map[];
    LimitersDoNotInterfere(none, es, "auth");
    LimitersDoNotInterfere(none, es, "api");
    assert Restrict(none, k => "auth" + ":" <= k) == none;
    assert Restrict(none, k => "api" + ":" <= k) == none;
  }

  /** A reset forgets everything: what follows is answered as from the start. */
  lemma ResetForgets(s: Store, before: seq<Event>, now: int, after: seq<Event>)
    ensures Verdicts(s, before + ([Reset(now)] + after)) == Verdicts(s, before) + Verdicts(map[], after)
  {
    VerdictsConcat(s, before, [Reset(now)] + after);
    assert ([Reset(now)] + after)[1..] == after;
  }

  // ----- Requests that are not counted

  function WithoutBypassed(es: seq<Event>): seq<Event> {
    if es == [] then []
    else (if es[0].Request? && Bypasses(es[0].limiter, es[0].call) then [] else [es[0]]) + WithoutBypassed(es[1..])
  }

  function Counted(ds: seq<Decision>): seq<Decision> {
    if ds == [] then [] else (if ds[0] == Passed then [] else [ds[0]]) + Counted(ds[1..])
  }

  /** Requests that bypass the limiter always pass and leave no trace: without them all other answers and the
      final store are the same. */
  lemma {:induction false} BypassedRequestsLeaveNoTrace(s: Store, es: seq<Event>)
    ensures After(s, WithoutBypassed(es)) == After(s, es)
    ensures Verdicts(s, WithoutBypassed(es)) == Counted(Verdicts(s, es))
    decreases es
  {
    if es != [] {
      var e, rest := es[0], WithoutBypassed(es[1..]);
      var later := Verdicts(Next(s, e), es[1..]);
      BypassedRequestsLeaveNoTrace(Next(s, e), es[1..]);
      assert ([e] + rest)[1..] == rest && [] + rest == rest;
      if e.Request? {
        assert ([Verdict(s, e)] + later)[1..] == later;
        assert Counted(Verdicts(s, es))
            == (if Bypasses(e.limiter, e.call) then [] else [Verdict(s, e)]) + Counted(later);
      } else {
        assert Verdicts(s, es) == later;
      }
    }
  }
}

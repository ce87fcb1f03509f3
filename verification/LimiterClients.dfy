/** Who a key stands for: requests are told apart by the forwarded address they claim, and only without one by the
    address of the socket they come from. */
module LimiterClients {
  import opened Optional
  import opened LimiterSpec
  import opened LimiterWindows
  import opened LimiterBounds

  // The address used when no forwarded one is given.
  function SocketIp(remote: Option<string>): string {
    if Truthy(remote) then remote.value else "127.0.0.1"
  }

  // A header that is there and not empty.
  ghost predicate Sent(header: Option<string>) {
    exists text :: header == Some(text) && text != ""
  }

  /** Who bypasses a limiter: in the test environment every request that does not send the test header, and anywhere
      the requests to the limiter with prefix "api" that carry a bearer token. */
  lemma WhoBypasses(l: Limiter, c: Call)
    ensures Bypasses(l, c) <==>
              || (c.testEnvironment && !Sent(c.testHeader))
              || (l.keyPrefix == "api" && exists token :: c.authorization == Some("Bearer " + token))
    ensures Sent(c.forwardedFor) ==> ClientIp(c) == c.forwardedFor.value
    ensures !Sent(c.forwardedFor) && Sent(c.remoteAddress) ==> ClientIp(c) == c.remoteAddress.value
    ensures !Sent(c.forwardedFor) && !Sent(c.remoteAddress) ==> ClientIp(c) == "127.0.0.1"
  {
    SentExactlyWhen(c.testHeader);
    SentExactlyWhen(c.forwardedFor);
    SentExactlyWhen(c.remoteAddress);
    if c.authorization.Some? && "Bearer " <= c.authorization.value {
      var text := c.authorization.value;
      assert text == "Bearer " + text[|"Bearer "|..];
    }
  }

  lemma SentExactlyWhen(header: Option<string>)
    ensures Sent(header) <==> Truthy(header)
  {
    if Truthy(header) {
      assert header == Some(header.value);
    }
  }

  /** The exported limiters outside the test environment: every log-in attempt is counted, 10 of them per window let
      through in production and 1000 in development, and of the general requests those without a bearer token. */
  lemma WhoIsCounted(isDev: bool, c: Call)
    requires !c.testEnvironment
    ensures !Bypasses(AuthLimiter(isDev), c)
    ensures Bypasses(ApiLimiter(), c) <==> exists token :: c.authorization == Some("Bearer " + token)
    ensures AuthLimiter(isDev).max == (if isDev then 1000 else 10) && ApiLimiter().max == 1000
    ensures AuthLimiter(isDev).windowMs == ApiLimiter().windowMs == 900000
  {
    WhoBypasses(AuthLimiter(isDev), c);
    WhoBypasses(ApiLimiter(), c);
  }

  /** Two counted requests to one limiter share a record exactly when their addresses agree. A forwarded address
      is as good as a socket address, so one can claim another's, and a request without either is taken for one
      from 127.0.0.1. */
  lemma WhoIsCountedTogether(prefix: string, c: Call, d: Call)
    ensures Key(prefix, ClientIp(c)) == Key(prefix, ClientIp(d)) <==> ClientIp(c) == ClientIp(d)
    ensures Truthy(c.forwardedFor) && Truthy(d.forwardedFor) ==>
              (ClientIp(c) == ClientIp(d) <==> c.forwardedFor == d.forwardedFor)
    ensures Truthy(c.forwardedFor) && !Truthy(d.forwardedFor) ==>
              (ClientIp(c) == ClientIp(d) <==> c.forwardedFor.value == SocketIp(d.remoteAddress))
    ensures !Truthy(c.forwardedFor) && !Truthy(d.forwardedFor) ==>
              (ClientIp(c) == ClientIp(d) <==> SocketIp(c.remoteAddress) == SocketIp(d.remoteAddress))
  {
    var k, m := Key(prefix, ClientIp(c)), Key(prefix, ClientIp(d));
    assert k[|prefix| + 1..] == ClientIp(c) && m[|prefix| + 1..] == ClientIp(d);
  }

  // ----- What one socket address can get through

  predicate FromSocket(e: Event, l: Limiter, remote: Option<string>) {
    e.Request? && e.limiter == l && e.call.remoteAddress == remote
  }

  /** The admitted requests to a limiter from one socket address with a time in [lo, hi]. */
  function AdmittedFrom(s: Store, es: seq<Event>, l: Limiter, remote: Option<string>, lo: int, hi: int): nat
    decreases es
  {
    if es == [] then 0
    else
      var e := es[0];
      (if FromSocket(e, l, remote) && Verdict(s, e) == Admitted && lo <= e.now <= hi then 1 else 0)
      + AdmittedFrom(Next(s, e), es[1..], l, remote, lo, hi)
  }

  // No request to the limiter from this socket address claims a forwarded address.
  ghost predicate Unforwarded(es: seq<Event>, l: Limiter, remote: Option<string>) {
    forall i :: 0 <= i < |es| && FromSocket(es[i], l, remote) ==> !Truthy(es[i].call.forwardedFor)
  }

  lemma {:induction false} SocketWithinKey(
    s: Store, es: seq<Event>, l: Limiter, remote: Option<string>, key: string, lo: int, hi: int)
    requires Unforwarded(es, l, remote) && key == Key(l.keyPrefix, SocketIp(remote))
    ensures AdmittedFrom(s, es, l, remote, lo, hi)
            <= AdmittedIn(HitTimes(es, key), RepliesOn(s, es, key), lo, hi)
    decreases es
  {
    if es != [] {
      var e := es[0];
      assert forall i :: 0 <= i < |es[1..]| ==> es[1..][i] == es[i+1];
      SocketWithinKey(Next(s, e), es[1..], l, remote, key, lo, hi);
      CountOneMore(s, es, key, lo, hi);
      if FromSocket(e, l, remote) && Verdict(s, e) == Admitted {
        assert e == es[0] && Hits(e, key);
      }
    }
  }

  lemma CountOneMore(s: Store, es: seq<Event>, key: string, lo: int, hi: int)
    requires es != []
    ensures var e := es[0]; var later := es[1..];
            AdmittedIn(HitTimes(es, key), RepliesOn(s, es, key), lo, hi)
            == (if Hits(e, key) && Verdict(s, e) == Admitted && lo <= e.now <= hi then 1 else 0)
               + AdmittedIn(HitTimes(later, key), RepliesOn(Next(s, e), later, key), lo, hi)
  {
    var e := es[0];
    var ts, ds := HitTimes(es[1..], key), RepliesOn(Next(s, e), es[1..], key);
    if Hits(e, key) {
      assert ([e.now] + ts)[1..] == ts && ([Verdict(s, e)] + ds)[1..] == ds;
    } else {
      assert [] + ts == ts && [] + ds == ds;
    }
  }

  /** Without forwarded addresses the limit per key is one per socket address. */
  lemma SocketBound(from: int, es: seq<Event>, l: Limiter, remote: Option<string>, lo: int, L: nat)
    requires LegalRun(from, es, Key(l.keyPrefix, SocketIp(remote)), l.windowMs, l.max)
    requires Unforwarded(es, l, remote)
    ensures AdmittedFrom(map[], es, l, remote, lo, lo + L) <= Peak(l.windowMs, l.max, L)
  {
    var key := Key(l.keyPrefix, SocketIp(remote));
    SocketWithinKey(map[], es, l, remote, key, lo, lo + L);
    SpanBound(from, es, key, l.windowMs, l.max, lo, L);
  }

  // The i-th of a supply of distinct claimed addresses.
  function Claim(i: nat): string {
    seq(i + 1, k => '1')
  }

  function Claims(l: Limiter, remote: Option<string>, now: int, i: nat, n: nat): seq<Event>
    decreases n
  {
    if n == 0 then []
    else [Request(l, Call(false, None, None, Some(Claim(i)), remote), now)] + Claims(l, remote, now, i + 1, n - 1)
  }

  lemma ClaimsDiffer(prefix: string, i: nat, j: nat)
    ensures Key(prefix, Claim(i)) == Key(prefix, Claim(j)) <==> i == j
  {
    assert |Key(prefix, Claim(i))| == |prefix| + 1 + (i + 1);
    assert |Key(prefix, Claim(j))| == |prefix| + 1 + (j + 1);
  }

  lemma {:induction false} ClaimsAdmitted(s: Store, l: Limiter, remote: Option<string>, now: int, i: nat, n: nat)
    requires l.max > 0 && forall j: nat :: i <= j ==> Key(l.keyPrefix, Claim(j)) !in s
    ensures AdmittedFrom(s, Claims(l, remote, now, i, n), l, remote, now, now) == n
    ensures Ordered(now, Claims(l, remote, now, i, n)) && NoReset(Claims(l, remote, now, i, n))
    ensures forall k :: 0 <= k < n ==>
              |Claims(l, remote, now, i, n)| == n && FromSocket(Claims(l, remote, now, i, n)[k], l, remote)
    decreases n
  {
    if n > 0 {
      var e := Request(l, Call(false, None, None, Some(Claim(i)), remote), now);
      var later := Claims(l, remote, now, i + 1, n - 1);
      forall j: nat | i + 1 <= j
        ensures Key(l.keyPrefix, Claim(j)) !in Next(s, e)
      {
        ClaimsDiffer(l.keyPrefix, i, j);
      }
      ClaimsAdmitted(Next(s, e), l, remote, now, i + 1, n - 1);
      assert ([e] + later)[1..] == later;
      assert Verdict(s, e) == Admitted;
    }
  }

  /** With them there is no limit: a single socket address gets any number of requests through at one instant. */
  lemma ForwardedAddressesLiftTheLimit(l: Limiter, remote: Option<string>, now: int, n: nat) returns (es: seq<Event>)
    requires l.max > 0
    ensures |es| == n && Ordered(now, es) && NoReset(es)
    ensures forall k :: 0 <= k < n ==> FromSocket(es[k], l, remote)
    ensures AdmittedFrom(map[], es, l, remote, now, now) == n
  {
    es := Claims(l, remote, now, 0, n);
    ClaimsAdmitted(map[], l, remote, now, 0, n);
  }

  // ----- The promise of the configuration

  /** At most `max` requests from any one socket address in any window's length of time: in all runs where every
      request with the limiter's prefix goes to the limiter, ... */
  ghost predicate SocketPromise(l: Limiter) {
    forall from, es, remote, lo :: OneLimiter(from, es, l) ==> SocketWithin(es, l, remote, lo)
  }

  /** ... and in those where no request from that address claims a forwarded one. */
  ghost predicate UnforwardedSocketPromise(l: Limiter) {
    forall from, es, remote, lo ::
      OneLimiter(from, es, l) && Unforwarded(es, l, remote) ==> SocketWithin(es, l, remote, lo)
  }

  ghost predicate SocketWithin(es: seq<Event>, l: Limiter, remote: Option<string>, lo: int) {
    AdmittedFrom(map[], es, l, remote, lo, lo + l.windowMs) <= l.max
  }

  ghost predicate OneLimiter(from: int, es: seq<Event>, l: Limiter) {
    && Ordered(from, es) && NoReset(es)
    && forall i, ip :: 0 <= i < |es| && Hits(es[i], Key(l.keyPrefix, ip)) ==> es[i].limiter == l
  }

  lemma {:induction false} NoneAdmittedAtZero(
    s: Store, es: seq<Event>, l: Limiter, remote: Option<string>, lo: int, hi: int)
    requires l.max == 0
    ensures AdmittedFrom(s, es, l, remote, lo, hi) == 0
    decreases es
  {
    if es != [] {
      NoneAdmittedAtZero(Next(s, es[0]), es[1..], l, remote, lo, hi);
    }
  }

  lemma RunOfOneLimiter(from: int, es: seq<Event>, l: Limiter)
    requires Ordered(from, es) && NoReset(es)
    requires forall i :: 0 <= i < |es| ==> es[i].Request? && es[i].limiter == l
    ensures OneLimiter(from, es, l)
  {
  }

  /** "Limit each IP", read as each socket address: no run breaks that exactly when nothing is let through at all. */
  lemma SocketPromiseKeptExactlyWhen(l: Limiter)
    ensures SocketPromise(l) <==> l.max == 0
  {
    if l.max == 0 {
      forall from, es, remote, lo | OneLimiter(from, es, l)
        ensures SocketWithin(es, l, remote, lo)
      {
        NoneAdmittedAtZero(map[], es, l, remote, lo, lo + l.windowMs);
      }
    } else {
      var remote := Some("10.0.0.1");
      var es := ForwardedAddressesLiftTheLimit(l, remote, 0, l.max + 1);
      RunOfOneLimiter(0, es, l);
      WiderSpan(map[], es, l, remote, 0, 0, l.windowMs);
      assert !SocketWithin(es, l, remote, 0);
    }
  }

  lemma {:induction false} WiderSpan(
    s: Store, es: seq<Event>, l: Limiter, remote: Option<string>, lo: int, hi: int, higher: int)
    requires hi <= higher
    ensures AdmittedFrom(s, es, l, remote, lo, hi) <= AdmittedFrom(s, es, l, remote, lo, higher)
    decreases es
  {
    if es != [] {
      WiderSpan(Next(s, es[0]), es[1..], l, remote, lo, hi, higher);
    }
  }

  lemma {:induction false} PlainRunCounts(s: Store, ts: seq<int>, l: Limiter, c: Call, lo: int, hi: int)
    requires !Bypasses(l, c)
    ensures var es := AsRun(ts, l, c); var key := Key(l.keyPrefix, ClientIp(c));
            && AdmittedFrom(s, es, l, c.remoteAddress, lo, hi)
               == AdmittedIn(HitTimes(es, key), RepliesOn(s, es, key), lo, hi)
            && forall i :: 0 <= i < |es| ==> es[i].Request? && es[i].limiter == l && es[i].call == c
    decreases ts
  {
    if ts != [] {
      var e, later, key := Request(l, c, ts[0]), AsRun(ts[1..], l, c), Key(l.keyPrefix, ClientIp(c));
      PlainRunCounts(Next(s, e), ts[1..], l, c, lo, hi);
      assert ([e] + later)[1..] == later;
      CountOneMore(s, AsRun(ts, l, c), key, lo, hi);
    }
  }

  /** Without forwarded addresses the same promise is kept exactly when the one per key is. */
  lemma UnforwardedPromiseKeptExactlyWhen(l: Limiter)
    ensures UnforwardedSocketPromise(l) <==> l.max <= 1 || l.windowMs == 0
  {
    PeakOfOneWindow(l.windowMs, l.max);
    if l.max <= 1 || l.windowMs == 0 {
      forall from, es, remote, lo | OneLimiter(from, es, l) && Unforwarded(es, l, remote)
        ensures SocketWithin(es, l, remote, lo)
      {
        SocketBound(from, es, l, remote, lo, l.windowMs);
      }
    } else {
      var c := Call(false, None, None, None, Some("10.0.0.1"));
      var ts, es, lo := BusiestRun(l, c, l.windowMs);
      PlainRunCounts(map[], ts, l, c, lo, lo + l.windowMs);
      RunOfOneLimiter(0, es, l);
      assert Unforwarded(es, l, c.remoteAddress);
      assert !SocketWithin(es, l, c.remoteAddress, lo);
    }
  }
}

/** The fixed-window rate limiter as a state machine over one shared store: what a request, a run of the
    background sweep and a reset do to the store, and what a run of such events answers. */
module LimiterSpec {
  import opened Optional

  datatype Limiter = Limiter(windowMs: nat, max: nat, keyPrefix: string)

  // The two configured limiters; development allows more log-in attempts.
  function AuthLimiter(isDev: bool): Limiter {
    Limiter(15 * 60 * 1000, if isDev then 1000 else 10, "auth")
  }

  function ApiLimiter(): Limiter {
    Limiter(15 * 60 * 1000, 1000, "api")
  }

  /** The parts of a request, and of the process it reaches, that the limiter looks at. */
  datatype Call = Call(
    testEnvironment: bool,
    testHeader: Option<string>,
    authorization: Option<string>,
    forwardedFor: Option<string>,
    remoteAddress: Option<string>)

  datatype Record = Record(count: nat, resetTime: int)

  type Store = map<string, Record>

  datatype Decision =
    | Passed                      // never counted
    | Admitted                    // counted and let through
    | Rejected(retryAfter: int)   // counted and answered 429

  datatype Event =
    | Request(limiter: Limiter, call: Call, now: int)
    | Sweep(now: int)
    | Reset(now: int)

  // An absent header and an empty one are both falsy.
  predicate Truthy(header: Option<string>) {
    header.Some? && header.value != ""
  }

  predicate Bypasses(l: Limiter, c: Call) {
    || (c.testEnvironment && !Truthy(c.testHeader))
    || (l.keyPrefix == "api" && Truthy(c.authorization) && "Bearer " <= c.authorization.value)
  }

  function ClientIp(c: Call): string {
    if Truthy(c.forwardedFor) then c.forwardedFor.value
    else if Truthy(c.remoteAddress) then c.remoteAddress.value
    else "127.0.0.1"
  }

  function Key(prefix: string, ip: string): string {
    prefix + ":" + ip
  }

  function KeyOf(e: Event): string
    requires e.Request?
  {
    Key(e.limiter.keyPrefix, ClientIp(e.call))
  }

  // Whether the event reaches the counter of a key.
  predicate Hits(e: Event, key: string) {
    e.Request? && !Bypasses(e.limiter, e.call) && KeyOf(e) == key
  }

  function Lookup(s: Store, key: string): Option<Record> {
    if key in s then Some(s[key]) else None
  }

  predicate Expired(r: Record, now: int) {
    now > r.resetTime
  }

  // The record after one more counted request.
  function Count(r: Option<Record>, windowMs: nat, now: int): Record {
    if r.None? || Expired(r.value, now) then Record(1, now + windowMs)
    else r.value.(count := r.value.count + 1)
  }

  // Milliseconds rounded up to whole seconds.
  function CeilSeconds(ms: int): (n: int)
    ensures 1000 * (n - 1) < ms <= 1000 * n
  {
    (ms + 999) / 1000
  }

  function Judge(r: Record, max: nat, now: int): Decision {
    if r.count > max then Rejected(CeilSeconds(r.resetTime - now)) else Admitted
  }

  function Unexpired(s: Store, now: int): Store {
    map key | key in s && !Expired(s[key], now) :: s[key]
  }

  /** The store after an event. */
  function Next(s: Store, e: Event): Store {
    match e
    case Request(l, c, now) =>
      if Bypasses(l, c) then s
      else var key := KeyOf(e); s[key := Count(Lookup(s, key), l.windowMs, now)]
    case Sweep(now) => Unexpired(s, now)
    case Reset(_) => map[]
  }

  /** The answer to a request. */
  function Verdict(s: Store, e: Event): Decision
    requires e.Request?
  {
    if Bypasses(e.limiter, e.call) then Passed
    else Judge(Count(Lookup(s, KeyOf(e)), e.limiter.windowMs, e.now), e.limiter.max, e.now)
  }

  function After(s: Store, es: seq<Event>): Store
    decreases es
  {
    if es == [] then s else After(Next(s, es[0]), es[1..])
  }

  /** The answers to the requests of a run, in order. */
  function Verdicts(s: Store, es: seq<Event>): seq<Decision>
    decreases es
  {
    if es == [] then []
    else (if es[0].Request? then [Verdict(s, es[0])] else []) + Verdicts(Next(s, es[0]), es[1..])
  }

  /** The clock reads at least `from` at the first event and never runs backwards. */
  ghost predicate Ordered(from: int, es: seq<Event>)
    decreases es
  {
    es == [] || (from <= es[0].now && Ordered(es[0].now, es[1..]))
  }

  ghost predicate NoReset(es: seq<Event>) {
    forall i :: 0 <= i < |es| ==> !es[i].Reset?
  }

  lemma {:induction false} AfterConcat(s: Store, xs: seq<Event>, ys: seq<Event>)
    ensures After(s, xs + ys) == After(After(s, xs), ys)
    decreases xs
  {
    if xs == [] {
      assert xs + ys == ys;
    } else {
      assert (xs + ys)[1..] == xs[1..] + ys;
      AfterConcat(Next(s, xs[0]), xs[1..], ys);
    }
  }
}

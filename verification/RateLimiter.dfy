/** The limiter as it runs: one mutable map of records that requests count on in place and the background
    sweep deletes from while it walks over the map. */
module RateLimiter {
  import opened Optional
  import Spec = LimiterSpec

  class RateLimitRecord {
    var count: nat
    var resetTime: int

    constructor (count: nat, resetTime: int)
      ensures this.count == count && this.resetTime == resetTime
    {
      this.count, this.resetTime := count, resetTime;
    }
  }

  class RateLimitStore {
    var records: map<string, RateLimitRecord>

    // No two keys share a record, so counting on one leaves all others alone.
    ghost predicate Valid()
      reads this
    {
      forall j, k :: j in records && k in records && j != k ==> records[j] != records[k]
    }

    ghost function View(): Spec.Store
      reads this, records.Values
    {
      map k | k in records :: Spec.Record(records[k].count, records[k].resetTime)
    }

    constructor ()
      ensures Valid() && View() == map[]
    {
      records := map[];
    }

    /** What the middleware does with one request. */
    method Handle(limiter: Spec.Limiter, call: Spec.Call, now: int) returns (decision: Spec.Decision)
      requires Valid()
      modifies this, records.Values
      ensures Valid()
      ensures forall k :: k in records ==> records[k] in old(records.Values) || fresh(records[k])
      ensures View() == Spec.Next(old(View()), Spec.Request(limiter, call, now))
      ensures decision == Spec.Verdict(old(View()), Spec.Request(limiter, call, now))
    {
      if call.testEnvironment && !Spec.Truthy(call.testHeader) {
        return Spec.Passed;
      }
      if limiter.keyPrefix == "api" && Spec.Truthy(call.authorization) && "Bearer " <= call.authorization.value {
        return Spec.Passed;
      }
      var key := limiter.keyPrefix + ":" + Spec.ClientIp(call);
      var record := Tally(key, limiter.windowMs, now);
      assert View()[key] == Spec.Record(record.count, record.resetTime);
      if record.count > limiter.max {
        decision := Spec.Rejected(Spec.CeilSeconds(record.resetTime - now));
      } else {
        decision := Spec.Admitted;
      }
    }

    // Counts on the key's record in place, or starts a new one.
    method Tally(key: string, windowMs: nat, now: int) returns (record: RateLimitRecord)
      requires Valid()
      modifies this, records.Values
      ensures Valid()
      ensures forall k :: k in records ==> records[k] in old(records.Values) || fresh(records[k])
      ensures View() == old(View())[key := Spec.Count(Spec.Lookup(old(View()), key), windowMs, now)]
      ensures key in records && records[key] == record
    {
      if key !in records || now > records[key].resetTime {
        record := new RateLimitRecord(1, now + windowMs);
        records := records[key := record];
      } else {
        record := records[key];
        record.count := record.count + 1;
      }
    }

    /** The background sweep: it visits every entry once, in whatever order, and deletes the expired ones. */
    method Sweep(now: int)
      requires Valid()
      modifies this
      ensures Valid()
      ensures records.Values <= old(records.Values)
      ensures View() == Spec.Next(old(View()), Spec.Sweep(now))
    {
      var pending := records.Keys;
      while pending != {}
        invariant Valid()
        invariant pending <= records.Keys <= old(records.Keys)
        invariant forall k :: k in records ==> records[k] == old(records[k])
        invariant forall k :: k in old(records) ==>
          (k in records <==> k in pending || !(now > old(records[k].resetTime)))
        decreases |pending|
      {
        var key :| key in pending;
        if now > records[key].resetTime {
          records := records - {key};
        }
        pending := pending - {key};
      }
    }

    method Clear()
      modifies this
      ensures Valid() && View() == map[]
    {
      records := map[];
    }
  }
}

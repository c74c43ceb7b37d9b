/** The in-memory rate limiter: a table from identifier to the number of
    requests seen in its current window and the time that window ends. The
    clock is an argument: `now` is what `Date.now()` would return, in
    milliseconds. */
module RateLimit {

  /** `WINDOW_MS`: fifteen minutes. */
  const WINDOW_MS := 15 * 60 * 1000

  /** `MAX_REQUESTS`: requests allowed per window. */
  const MAX_REQUESTS := 100

  /** `{ count, resetTime }` */
  datatype Entry = Entry(count: int, resetTime: int)

  /** The table, the verdict and the remaining allowance after one call. */
  datatype Outcome = Outcome(store: map<string, Entry>, allowed: bool, remaining: int)

  /** One call of `rateLimit(key)` at time `now` on the table `store`. */
  function Step(store: map<string, Entry>, key: string, now: int): (r: Outcome)
    ensures r.store.Keys == store.Keys + {key}
    ensures forall k :: k in store && k != key ==> r.store[k] == store[k]
    ensures r.allowed ==> r.remaining == MAX_REQUESTS - r.store[key].count
    ensures !r.allowed ==> r.remaining == 0 && r.store == store
  {
    if key !in store || now > store[key].resetTime then
      Outcome(store[key := Entry(1, now + WINDOW_MS)], true, MAX_REQUESTS - 1)
    else if store[key].count >= MAX_REQUESTS then
      Outcome(store, false, 0)
    else
      var e := store[key];
      Outcome(store[key := Entry(e.count + 1, e.resetTime)], true, MAX_REQUESTS - (e.count + 1))
  }

  /** What every entry satisfies once calls were made no later than `now`:
      at least one and at most `MAX_REQUESTS` requests counted, and a window
      that ends at most `WINDOW_MS` after `now`. */
  predicate Valid(store: map<string, Entry>, now: int) {
    forall k :: k in store ==> 1 <= store[k].count <= MAX_REQUESTS && store[k].resetTime <= now + WINDOW_MS
  }

  /** The table after the sweep at `now`: the entries whose window has not
      ended. */
  function Swept(store: map<string, Entry>, now: int): map<string, Entry> {
    map k | k in store && now <= store[k].resetTime :: store[k]
  }

  /** The limiter; `store` is the module-level table. */
  class RateLimiter {
    var store: map<string, Entry>

    /** `const store: RateLimitStore = {}` */
    constructor ()
      ensures store == map[]
    {
      store := map[];
    }

    /** `rateLimit(identifier)` at time `now`. */
    method RateLimit(identifier: string, now: int) returns (allowed: bool, remaining: int)
      modifies this
      ensures Outcome(store, allowed, remaining) == Step(old(store), identifier, now)
    {
      var key := identifier;
      if key !in store || now > store[key].resetTime {
        store := store[key := Entry(1, now + WINDOW_MS)];
        return true, MAX_REQUESTS - 1;
      }
      if store[key].count >= MAX_REQUESTS {
        return false, 0;
      }
      store := store[key := Entry(store[key].count + 1, store[key].resetTime)];
      return true, MAX_REQUESTS - store[key].count;
    }

    /** The body of the periodic cleanup at time `now`: every entry whose
        window has ended is deleted. */
    method Sweep(now: int)
      modifies this
      ensures store == Swept(old(store), now)
    {
      var keys := store.Keys;
      while keys != {}
        invariant keys <= old(store).Keys
        invariant forall k :: k in store <==> k in old(store) && (k in keys || now <= old(store)[k].resetTime)
        invariant forall k :: k in store ==> store[k] == old(store)[k]
        decreases keys
      {
        var key :| key in keys;
        if now > store[key].resetTime {
          store := store - {key};
        }
        keys := keys - {key};
      }
    }
  }

  // --------------------------------------------------------------- lemmas

  /** An unknown key, or one whose window has ended, starts a new window of
      one request and is allowed with `MAX_REQUESTS - 1` to go. */
  lemma NewWindow(store: map<string, Entry>, key: string, now: int)
    requires key !in store || now > store[key].resetTime
    ensures var o := Step(store, key, now);
            o.allowed && o.remaining == MAX_REQUESTS - 1 && o.store[key] == Entry(1, now + WINDOW_MS)
  {
  }

  /** A key at its limit in an open window is refused, with nothing
      remaining, and the table is left as it was. */
  lemma LimitReached(store: map<string, Entry>, key: string, now: int)
    requires key in store && now <= store[key].resetTime && store[key].count >= MAX_REQUESTS
    ensures Step(store, key, now) == Outcome(store, false, 0)
  {
  }

  /** Below the limit in an open window, the count goes up by exactly one,
      the window's end stays, and `remaining` is what is left of the cap. */
  lemma CountedInWindow(store: map<string, Entry>, key: string, now: int)
    requires key in store && now <= store[key].resetTime && store[key].count < MAX_REQUESTS
    ensures var o := Step(store, key, now);
            o.allowed && o.store[key] == Entry(store[key].count + 1, store[key].resetTime) &&
            o.remaining == MAX_REQUESTS - o.store[key].count
  {
  }

  /** The window ends strictly after `resetTime`: at `now == resetTime` the
      old window still holds. */
  lemma ExpiryIsStrict(store: map<string, Entry>, key: string)
    requires key in store
    ensures var o := Step(store, key, store[key].resetTime);
            o.store[key].resetTime == store[key].resetTime &&
            (o.allowed <==> store[key].count < MAX_REQUESTS)
  {
  }

  /** A call changes no entry but its own. */
  lemma OthersUntouched(store: map<string, Entry>, key: string, now: int)
    ensures var o := Step(store, key, now);
            key in o.store && o.store.Keys == store.Keys + {key} &&
            forall k :: k in store && k != key ==> o.store[k] == store[k]
  {
  }

  /** Calls keep every entry valid, as time goes forward, and the remaining
      allowance is between 0 and `MAX_REQUESTS - 1`. */
  lemma StepValid(store: map<string, Entry>, key: string, before: int, now: int)
    requires Valid(store, before) && before <= now
    ensures Valid(Step(store, key, now).store, now)
    ensures 0 <= Step(store, key, now).remaining <= MAX_REQUESTS - 1
  {
  }

  /** The sweep deletes exactly the entries whose window has ended and
      keeps the others as they were. */
  lemma SweptKeeps(store: map<string, Entry>, now: int)
    ensures forall k :: k in Swept(store, now) <==> k in store && now <= store[k].resetTime
    ensures forall k :: k in Swept(store, now) ==> Swept(store, now)[k] == store[k]
    ensures Valid(store, now) ==> Valid(Swept(store, now), now)
  {
  }

  /** The sweep cannot be told apart by later calls: an entry it deletes is
      one `rateLimit` would have started afresh anyway. */
  lemma SweepUnobservable(store: map<string, Entry>, key: string, swept: int, now: int)
    requires swept <= now
    ensures var a, b := Step(store, key, now), Step(Swept(store, swept), key, now);
            a.allowed == b.allowed && a.remaining == b.remaining && a.store[key] == b.store[key]
  {
  }

  // ----------------------------------------------------- calls in sequence

  /** Calls for `key` at the times `times`, in order: the final table and
      the number of calls allowed. */
  function Calls(store: map<string, Entry>, key: string, times: seq<int>): (r: (map<string, Entry>, nat))
    decreases |times|
  {
    if times == [] then (store, 0)
    else
      var o := Step(store, key, times[0]);
      var rest := Calls(o.store, key, times[1..]);
      (rest.0, rest.1 + if o.allowed then 1 else 0)
  }

  /** While a window is open, every call that is allowed is counted in it:
      the count ends at its start plus the calls allowed, never above the
      cap, and the window keeps its end. */
  lemma {:induction false} CallsInWindow(store: map<string, Entry>, key: string, times: seq<int>)
    requires key in store && 1 <= store[key].count <= MAX_REQUESTS
    requires forall i :: 0 <= i < |times| ==> times[i] <= store[key].resetTime
    ensures var r := Calls(store, key, times);
            key in r.0 && r.0[key] == Entry(store[key].count + r.1, store[key].resetTime) &&
            store[key].count + r.1 <= MAX_REQUESTS
    decreases |times|
  {
    if times != [] {
      var o := Step(store, key, times[0]);
      CallsInWindow(o.store, key, times[1..]);
    }
  }

  /** At most `MAX_REQUESTS` calls are allowed in one window: the call that
      opens it and every later one before it ends. */
  lemma WindowCap(store: map<string, Entry>, key: string, start: int, times: seq<int>)
    requires key !in store || start > store[key].resetTime
    requires forall i :: 0 <= i < |times| ==> times[i] <= start + WINDOW_MS
    ensures Calls(store, key, [start] + times).1 <= MAX_REQUESTS
  {
    var o := Step(store, key, start);
    assert ([start] + times)[1..] == times;
    CallsInWindow(o.store, key, times);
  }
}

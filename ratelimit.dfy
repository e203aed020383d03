/** `RateLimitMiddleware` of backend/fastapi-guide/resources/middleware-examples.py:
    an in-memory sliding-window limiter keyed by client address.

    Timestamps are integer seconds and the clock is the `now` argument of each
    request; requests are handled one at a time. */
module RateLimit {
  import opened Common

  /** `timedelta(minutes=1)` in seconds. */
  const WindowSeconds := 60

  /** `request.client.host if request.client else "unknown"` */
  function ClientKey(client: Option<string>): string
  {
    if client.Some? then client.value else "unknown"
  }

  /** `[req_time for req_time in ts if req_time > now - timedelta(minutes=1)]` */
  function Prune(ts: seq<int>, now: int): (kept: seq<int>)
    ensures |kept| <= |ts|
  {
    if ts == [] then []
    else (if ts[0] > now - WindowSeconds then [ts[0]] else []) + Prune(ts[1..], now)
  }

  /** Pruning keeps exactly the timestamps strictly newer than a minute ago:
      one exactly 60 seconds old is dropped. */
  lemma {:induction false} PruneMembers(ts: seq<int>, now: int, t: int)
    ensures t in Prune(ts, now) <==> t in ts && t > now - WindowSeconds
  {
    if ts != [] {
      PruneMembers(ts[1..], now, t);
      assert t in ts <==> t == ts[0] || t in ts[1..];
    }
  }

  predicate Sorted(ts: seq<int>)
  {
    forall i, j :: 0 <= i < j < |ts| ==> ts[i] <= ts[j]
  }

  /** Pruning filters each part of a list on its own and keeps the parts in
      order: the kept entries keep their relative order, whatever the input. */
  lemma {:induction false} PruneAppend(a: seq<int>, b: seq<int>, now: int)
    ensures Prune(a + b, now) == Prune(a, now) + Prune(b, now)
  {
    if a == [] {
      assert a + b == b;
    } else {
      assert (a + b)[0] == a[0] && (a + b)[1..] == a[1..] + b;
      PruneAppend(a[1..], b, now);
    }
  }

  /** Pruning keeps every fresh timestamp as often as it was recorded, so
      requests in the same second each count against the limit, and drops
      every expired one. */
  lemma {:induction false} PruneCount(ts: seq<int>, now: int, t: int)
    ensures multiset(Prune(ts, now))[t] == if t > now - WindowSeconds then multiset(ts)[t] else 0
  {
    if ts != [] {
      PruneCount(ts[1..], now, t);
      assert ts == [ts[0]] + ts[1..];
      assert multiset(ts) == multiset([ts[0]]) + multiset(ts[1..]);
      var head := if ts[0] > now - WindowSeconds then [ts[0]] else [];
      assert multiset(Prune(ts, now)) == multiset(head) + multiset(Prune(ts[1..], now));
    }
  }

  /** Pruning keeps the relative order of the kept entries: on a sorted list
      it drops a prefix of expired entries, so what is left is the sliding
      window, a suffix. */
  lemma {:induction false} PruneSortedIsSuffix(ts: seq<int>, now: int)
    requires Sorted(ts)
    ensures Prune(ts, now) == ts[|ts| - |Prune(ts, now)|..]
    ensures forall i :: 0 <= i < |ts| - |Prune(ts, now)| ==> ts[i] <= now - WindowSeconds
  {
    PruneSortedExpiredPrefix(ts, now);
    if ts != [] {
      if ts[0] > now - WindowSeconds {
        assert forall t :: t in ts ==> t > now - WindowSeconds;
        PruneKeepsAll(ts, now);
        assert ts[0..] == ts;
      } else {
        var rest := ts[1..];
        assert Sorted(rest);
        PruneSortedIsSuffix(rest, now);
        var kept := Prune(rest, now);
        assert Prune(ts, now) == [] + kept;
        assert rest[|rest| - |kept|..] == ts[|ts| - |kept|..];
      }
    }
  }

  /** On a list in arrival order, what pruning drops is expired. */
  lemma {:induction false} PruneSortedExpiredPrefix(ts: seq<int>, now: int)
    requires Sorted(ts)
    ensures forall i :: 0 <= i < |ts| - |Prune(ts, now)| ==> ts[i] <= now - WindowSeconds
  {
    if ts != [] && ts[0] > now - WindowSeconds {
      assert forall t :: t in ts ==> t > now - WindowSeconds;
      PruneKeepsAll(ts, now);
    } else if ts != [] {
      var rest := ts[1..];
      assert Sorted(rest);
      PruneSortedExpiredPrefix(rest, now);
      assert Prune(ts, now) == [] + Prune(rest, now);
      forall i | 1 <= i < |ts| - |Prune(ts, now)|
        ensures ts[i] <= now - WindowSeconds
      {
        assert ts[i] == rest[i - 1];
      }
    }
  }

  lemma {:induction false} PruneKeepsAll(ts: seq<int>, now: int)
    requires forall t :: t in ts ==> t > now - WindowSeconds
    ensures Prune(ts, now) == ts
  {
    if ts != [] {
      assert ts[0] in ts;
      assert forall t :: t in ts[1..] ==> t in ts;
      PruneKeepsAll(ts[1..], now);
      assert [ts[0]] + ts[1..] == ts;
    }
  }

  /** Pruning at one instant and again at a later one is pruning once, later. */
  lemma {:induction false} PruneTwice(ts: seq<int>, earlier: int, later: int)
    requires earlier <= later
    ensures Prune(Prune(ts, earlier), later) == Prune(ts, later)
  {
    if ts != [] {
      PruneTwice(ts[1..], earlier, later);
      if ts[0] > earlier - WindowSeconds {
        var once := Prune(ts, earlier);
        assert once == [ts[0]] + Prune(ts[1..], earlier);
        assert once[0] == ts[0] && once[1..] == Prune(ts[1..], earlier);
        var head := if ts[0] > later - WindowSeconds then [ts[0]] else [];
        assert Prune(once, later) == head + Prune(once[1..], later);
        assert Prune(ts, later) == head + Prune(ts[1..], later);
      } else {
        assert Prune(ts, earlier) == [] + Prune(ts[1..], earlier) == Prune(ts[1..], earlier);
        assert Prune(ts, later) == [] + Prune(ts[1..], later) == Prune(ts[1..], later);
      }
    }
  }

  /** A pruned sorted list stays sorted. */
  lemma PruneSorted(ts: seq<int>, now: int)
    requires Sorted(ts)
    ensures Sorted(Prune(ts, now))
  {
    PruneSortedIsSuffix(ts, now);
  }

  /** The limiter's answer: pass the request on, or a JSON error response. */
  datatype Decision = Forward | Reject(status: int, error: string, detail: string)

  /** Pruning a list in arrival order with no entry after `now` leaves one
      that stays so, also once `now` is appended. */
  lemma PruneInOrder(ts: seq<int>, now: int)
    requires Sorted(ts) && forall k :: 0 <= k < |ts| ==> ts[k] <= now
    ensures var kept := Prune(ts, now);
            && Sorted(kept) && (forall k :: 0 <= k < |kept| ==> kept[k] <= now)
            && Sorted(kept + [now]) && (forall k :: 0 <= k < |kept + [now]| ==> (kept + [now])[k] <= now)
  {
    var kept := Prune(ts, now);
    PruneSorted(ts, now);
    forall k | 0 <= k < |kept| ensures kept[k] <= now {
      PruneMembers(ts, now, kept[k]);
    }
  }

  /** The 429 response; its detail names the limit, and the number in it reads
      back as the limit. */
  function LimitExceeded(requestsPerMinute: int): (d: Decision)
    ensures d.Reject? && d.status == 429 && d.error == "Rate limit exceeded"
    ensures |d.detail| > 28 && d.detail[..8] == "Maximum " && d.detail[|d.detail| - 20..] == " requests per minute"
    ensures requestsPerMinute >= 0 ==>
              var number := d.detail[8..|d.detail| - 20];
              && (forall i :: 0 <= i < |number| ==> IsDigit(number[i]))
              && DigitsValue(number) == requestsPerMinute
  {
    var number := IntToString(requestsPerMinute);
    IntToStringChars(requestsPerMinute);
    if requestsPerMinute >= 0 then NatToStringRoundTrip(requestsPerMinute);
      var detail := "Maximum " + number + " requests per minute";
      assert detail[8..|detail| - 20] == number;
      Reject(429, "Rate limit exceeded", detail)
    else
      Reject(429, "Rate limit exceeded", "Maximum " + number + " requests per minute")
  }

  /** The most entries a client's list can hold. */
  function Capacity(requestsPerMinute: int): nat
  {
    if requestsPerMinute > 0 then requestsPerMinute else 0
  }

  class RateLimiter {
    const requestsPerMinute: int
    /** `self.requests`, a `defaultdict(list)`: an absent client has no entries. */
    var requests: map<string, seq<int>>

    /** No client's list is longer than the limit. */
    ghost predicate Valid()
      reads this
    {
      forall c :: c in requests ==> |requests[c]| <= Capacity(requestsPerMinute)
    }

    /** With a clock that never goes back, every list is in arrival order and
        no entry lies in the future. */
    ghost predicate InOrderUntil(now: int)
      reads this
    {
      forall c :: c in requests ==>
        Sorted(requests[c]) && forall k :: 0 <= k < |requests[c]| ==> requests[c][k] <= now
    }

    /** `self.requests[client]` of the default dictionary. */
    function History(client: string): seq<int>
      reads this
    {
      if client in requests then requests[client] else []
    }

    /** `__init__`: requests_per_minute defaults to 60, the table starts empty. */
    constructor (requestsPerMinute: int := 60)
      ensures this.requestsPerMinute == requestsPerMinute
      ensures requests == map[]
      ensures Valid()
    {
      this.requestsPerMinute := requestsPerMinute;
      requests := map[];
    }

    /** `dispatch`. The health check passes untouched. Any other request
        prunes the caller's list, then is refused with 429 when the pruned list
        already holds `requestsPerMinute` entries, and otherwise records `now`
        and passes. Only the caller's entry changes. */
    method Dispatch(path: string, client: Option<string>, now: int) returns (d: Decision)
      requires Valid()
      modifies this
      ensures Valid()
      ensures path == HealthPath ==> d == Forward && requests == old(requests)
      ensures path != HealthPath ==>
        var id := ClientKey(client);
        var kept := Prune(old(History(id)), now);
        && (d == Forward <==> |kept| < requestsPerMinute)
        && (d != Forward ==> d == LimitExceeded(requestsPerMinute))
        && requests == old(requests)[id := if d == Forward then kept + [now] else kept]
      ensures old(InOrderUntil(now)) ==> InOrderUntil(now)
    {
      if path == HealthPath {
        return Forward;
      }
      var id := ClientKey(client);
      var kept := Prune(History(id), now);
      assert |kept| <= |History(id)| <= Capacity(requestsPerMinute);
      if InOrderUntil(now) {
        PruneInOrder(History(id), now);
      }
      requests := requests[id := kept];
      if |kept| >= requestsPerMinute {
        return LimitExceeded(requestsPerMinute);
      }
      requests := requests[id := kept + [now]];
      d := Forward;
    }
  }

  /** A limiter of two requests a minute after client 10.0.0.1 has been let
      through at seconds 0 and 30. */
  method TwoRequests() returns (limiter: RateLimiter)
    ensures fresh(limiter) && limiter.Valid()
    ensures limiter.requestsPerMinute == 2
    ensures limiter.requests == map["10.0.0.1" := [0, 30]]
  {
    limiter := new RateLimiter(2);
    assert Prune([], 0) == [] && [] + [0] == [0];
    var d := limiter.Dispatch("/api/users", Some("10.0.0.1"), 0);
    assert d == Forward && limiter.requests == map["10.0.0.1" := [0]];
    assert Prune([0], 30) == [0] && [0] + [30] == [0, 30];
    d := limiter.Dispatch("/api/users", Some("10.0.0.1"), 30);
    assert d == Forward;
  }

  /** The third request within the minute is refused with 429 and not recorded. */
  method WindowFullScenario()
  {
    var limiter := TwoRequests();
    assert Prune([0, 30], 59) == [0, 30];
    var d := limiter.Dispatch("/api/users", Some("10.0.0.1"), 59);
    assert d.Reject? && d.status == 429;
    assert limiter.History("10.0.0.1") == [0, 30];
  }

  /** The health check passes and is not counted. */
  method HealthNotCountedScenario()
  {
    var limiter := TwoRequests();
    var d := limiter.Dispatch("/health", Some("10.0.0.1"), 31);
    assert d == Forward && limiter.History("10.0.0.1") == [0, 30];
  }

  /** A request without a client address is counted under "unknown", apart
      from the full window of 10.0.0.1. */
  method UnknownClientScenario()
  {
    var limiter := TwoRequests();
    var d := limiter.Dispatch("/api/users", None, 59);
    assert d == Forward && limiter.History("unknown") == [59];
    assert limiter.History("10.0.0.1") == [0, 30];
  }

  /** At the sixtieth second the entry of second 0 has left the window, so
      the third request passes and the list slides to [30, 60]. */
  method SlidingWindowScenario()
  {
    var limiter := TwoRequests();
    assert Prune([0, 30], 60) == [30];
    var d := limiter.Dispatch("/api/users", Some("10.0.0.1"), 60);
    assert d == Forward && limiter.History("10.0.0.1") == [30, 60];
  }
}

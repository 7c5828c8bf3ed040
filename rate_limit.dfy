/** The per-user sliding-window limiter in front of add_to_queue: one deque of
    admission times per username, trimmed from the front on every request. */
module RateLimit {

  /** `queue_rate_limit_count` and `queue_rate_limit_seconds` by default. */
  const DefaultLimit: nat := 10
  const DefaultWindow: int := 30

  /** Pop timestamps from the front while the oldest is more than `window`
      older than `now`; what is left starts inside the window. */
  function Evict(bucket: seq<int>, now: int, window: int): (r: seq<int>)
    ensures |r| <= |bucket|
    ensures r != [] ==> now - r[0] <= window
  {
    if bucket != [] && now - bucket[0] > window then Evict(bucket[1..], now, window) else bucket
  }

  /** Eviction only pops from the front, and only entries more than `window`
      older than `now`. */
  lemma {:induction false} EvictPopsPrefix(bucket: seq<int>, now: int, window: int)
    ensures var r := Evict(bucket, now, window);
            r == bucket[|bucket| - |r|..] && forall i :: 0 <= i < |bucket| - |r| ==> now - bucket[i] > window
  {
    if bucket != [] && now - bucket[0] > window {
      EvictPopsPrefix(bucket[1..], now, window);
      var r := Evict(bucket, now, window);
      assert bucket[1..][|bucket| - 1 - |r|..] == bucket[|bucket| - |r|..];
      forall i | 0 <= i < |bucket| - |r| ensures now - bucket[i] > window {
        if i > 0 { assert bucket[i] == bucket[1..][i - 1]; }
      }
    }
  }

  /** The limiter's answer and the user's bucket afterwards. */
  datatype Decision = Decision(allowed: bool, bucket: seq<int>)

  /** Evict, then refuse when `limit` entries remain, else record `now`. */
  function Admit(bucket: seq<int>, now: int, window: int, limit: nat): (d: Decision)
    ensures |d.bucket| <= |bucket| + 1
    ensures d.allowed ==> 0 < |d.bucket| <= limit && d.bucket[|d.bucket| - 1] == now
    ensures !d.allowed ==> |d.bucket| >= limit
  {
    var kept := Evict(bucket, now, window);
    if |kept| >= limit then Decision(false, kept) else Decision(true, kept + [now])
  }

  predicate Sorted(s: seq<int>) {
    forall i, j :: 0 <= i < j < |s| ==> s[i] <= s[j]
  }

  /** The reference definition of a sliding window: the recorded times at
      most `window` before `now`. */
  function InWindow(bucket: seq<int>, now: int, window: int): (r: seq<int>)
    ensures |r| <= |bucket|
    ensures forall t :: t in r <==> t in bucket && now - t <= window
  {
    if bucket == [] then []
    else if now - bucket[0] <= window then [bucket[0]] + InWindow(bucket[1..], now, window)
    else InWindow(bucket[1..], now, window)
  }

  /** A timestamp exactly `window` old is kept: eviction is strict. */
  lemma EvictionIsStrict(bucket: seq<int>, now: int, window: int)
    requires bucket != [] && now - bucket[0] == window
    ensures Evict(bucket, now, window) == bucket
  {
  }

  lemma {:induction false} InWindowAll(bucket: seq<int>, now: int, window: int)
    requires forall t :: t in bucket ==> now - t <= window
    ensures InWindow(bucket, now, window) == bucket
  {
    if bucket != [] {
      assert bucket == [bucket[0]] + bucket[1..];
      assert bucket[0] in bucket;
      assert forall t :: t in bucket[1..] ==> t in bucket;
      InWindowAll(bucket[1..], now, window);
    }
  }

  /** With timestamps recorded in order, front eviction keeps exactly the
      times inside the window. */
  lemma {:induction false} EvictIsWindow(bucket: seq<int>, now: int, window: int)
    requires Sorted(bucket)
    ensures Evict(bucket, now, window) == InWindow(bucket, now, window)
  {
    if bucket != [] {
      if now - bucket[0] > window {
        assert Sorted(bucket[1..]) by {
          forall i, j | 0 <= i < j < |bucket[1..]| ensures bucket[1..][i] <= bucket[1..][j] {
            assert bucket[1..][i] == bucket[i + 1] && bucket[1..][j] == bucket[j + 1];
          }
        }
        EvictIsWindow(bucket[1..], now, window);
      } else {
        forall t | t in bucket ensures now - t <= window {
          var i :| 0 <= i < |bucket| && bucket[i] == t;
          assert bucket[0] <= bucket[i];
        }
        InWindowAll(bucket, now, window);
      }
    }
  }

  /** With in-order timestamps, a request is admitted exactly when fewer than
      `limit` admissions fall inside the window. */
  lemma AdmitIsSlidingWindow(bucket: seq<int>, now: int, window: int, limit: nat)
    requires Sorted(bucket)
    ensures Admit(bucket, now, window, limit).allowed <==> |InWindow(bucket, now, window)| < limit
  {
    EvictIsWindow(bucket, now, window);
  }

  /** A bucket never holds more than `limit` timestamps; a refusal records
      nothing and keeps only what eviction left. */
  lemma AdmitBounded(bucket: seq<int>, now: int, window: int, limit: nat)
    requires |bucket| <= limit
    ensures var d := Admit(bucket, now, window, limit);
            |d.bucket| <= limit
            && (d.allowed ==> d.bucket == Evict(bucket, now, window) + [now])
            && (!d.allowed ==> d.bucket == Evict(bucket, now, window) && |d.bucket| == limit)
  {
  }

  lemma SortedSuffix(s: seq<int>, k: nat)
    requires Sorted(s) && k <= |s|
    ensures Sorted(s[k..])
  {
    forall i, j | 0 <= i < j < |s[k..]| ensures s[k..][i] <= s[k..][j] {
      assert s[k..][i] == s[k + i] && s[k..][j] == s[k + j];
    }
  }

  lemma SortedAppend(s: seq<int>, x: int)
    requires Sorted(s) && forall t :: t in s ==> t <= x
    ensures Sorted(s + [x])
  {
    var b := s + [x];
    forall i, j | 0 <= i < j < |b| ensures b[i] <= b[j] {
      assert b[i] == s[i];
      if j < |s| { assert b[j] == s[j]; } else { assert s[i] in s; }
    }
  }

  /** What eviction keeps of an in-order bucket is in order, inside the
      window and no later than the newest entry. */
  lemma EvictKeepsSorted(bucket: seq<int>, now: int, window: int)
    requires Sorted(bucket)
    requires bucket != [] ==> bucket[|bucket| - 1] <= now
    ensures var kept := Evict(bucket, now, window);
            Sorted(kept) && forall i :: 0 <= i < |kept| ==> now - kept[i] <= window && kept[i] <= now
  {
    var kept := Evict(bucket, now, window);
    var m := |bucket| - |kept|;
    EvictPopsPrefix(bucket, now, window);
    assert Sorted(kept) by { SortedSuffix(bucket, m); }
    forall i | 0 <= i < |kept| ensures now - kept[i] <= window && kept[i] <= now {
      assert kept[0] == bucket[m] && kept[i] == bucket[m + i];
      assert bucket[m] <= bucket[m + i] <= bucket[|bucket| - 1];
    }
  }

  /** Recording `now` after in-window entries no later than it keeps the
      bucket in order and inside the window. */
  lemma AppendInWindow(kept: seq<int>, now: int, window: int)
    requires Sorted(kept) && window >= 0
    requires forall i :: 0 <= i < |kept| ==> now - kept[i] <= window && kept[i] <= now
    ensures Sorted(kept + [now]) && forall t :: t in kept + [now] ==> now - t <= window
  {
    forall t | t in kept ensures t <= now {
      var i :| 0 <= i < |kept| && kept[i] == t;
    }
    SortedAppend(kept, now);
    var b := kept + [now];
    forall t | t in b ensures now - t <= window {
      var i :| 0 <= i < |b| && b[i] == t;
      if i < |kept| { assert b[i] == kept[i]; }
    }
  }

  /** Admitting a time no earlier than the last one keeps the bucket in order
      and every entry inside the window. */
  lemma AdmitKeepsSorted(bucket: seq<int>, now: int, window: int, limit: nat)
    requires Sorted(bucket) && window >= 0
    requires bucket != [] ==> bucket[|bucket| - 1] <= now
    ensures var b := Admit(bucket, now, window, limit).bucket;
            Sorted(b) && forall t :: t in b ==> now - t <= window
  {
    var kept := Evict(bucket, now, window);
    EvictKeepsSorted(bucket, now, window);
    if |kept| >= limit {
      forall t | t in kept ensures now - t <= window {
        var i :| 0 <= i < |kept| && kept[i] == t;
      }
    } else {
      AppendInWindow(kept, now, window);
    }
  }

  /** Three admissions at 0, 1 and 2 fill a window of 10 with limit 3; the
      fourth at 3 is refused; at 11 the entry from 0 has left the window (11
      seconds old) while the one from 1 (exactly 10 old) stays, so the request
      is admitted. */
  lemma SlidingWindowExample()
    ensures var d0 := Admit([], 0, 10, 3);
            var d1 := Admit(d0.bucket, 1, 10, 3);
            var d2 := Admit(d1.bucket, 2, 10, 3);
            var d3 := Admit(d2.bucket, 3, 10, 3);
            var d4 := Admit(d3.bucket, 11, 10, 3);
            d0.allowed && d1.allowed && d2.allowed && !d3.allowed && d4.allowed
            && d4.bucket == [1, 2, 11]
  {
    assert Admit([], 0, 10, 3) == Decision(true, [0]);
    assert Evict([0], 1, 10) == [0];
    assert Admit([0], 1, 10, 3) == Decision(true, [0, 1]);
    assert Evict([0, 1], 2, 10) == [0, 1];
    assert Admit([0, 1], 2, 10, 3) == Decision(true, [0, 1, 2]);
    assert Evict([0, 1, 2], 3, 10) == [0, 1, 2];
    assert Admit([0, 1, 2], 3, 10, 3) == Decision(false, [0, 1, 2]);
    assert [0, 1, 2][1..] == [1, 2];
    assert Evict([1, 2], 11, 10) == [1, 2];
    assert Evict([0, 1, 2], 11, 10) == [1, 2];
    assert Admit([0, 1, 2], 11, 10, 3) == Decision(true, [1, 2, 11]);
  }

  /** With the configured defaults (10 per 30 seconds) an entry exactly 30
      seconds old still counts, one 31 seconds old no longer does, and a
      user with 10 recent admissions is refused. */
  lemma DefaultsExample()
    ensures Admit([0], 30, DefaultWindow, DefaultLimit) == Decision(true, [0, 30])
    ensures Admit([0], 31, DefaultWindow, DefaultLimit) == Decision(true, [31])
    ensures !Admit([1, 2, 3, 4, 5, 6, 7, 8, 9, 10], 20, DefaultWindow, DefaultLimit).allowed
  {
    assert Evict([0], 31, DefaultWindow) == Evict([], 31, DefaultWindow);
    assert Evict([1, 2, 3, 4, 5, 6, 7, 8, 9, 10], 20, DefaultWindow) == [1, 2, 3, 4, 5, 6, 7, 8, 9, 10];
  }

  /** The `defaultdict(deque)` of buckets, keyed by username. */
  class RateLimiter {
    var buckets: map<string, seq<int>>
    const limit: nat
    const window: int

    /** No bucket grows past the limit. */
    ghost predicate Valid()
      reads this
    {
      forall user :: user in buckets ==> |buckets[user]| <= limit
    }

    /** A user's bucket; `defaultdict` hands out an empty one first. */
    function Bucket(user: string): seq<int>
      reads this
    {
      if user in buckets then buckets[user] else []
    }

    constructor (limit: nat, window: int)
      ensures Valid() && buckets == map[] && this.limit == limit && this.window == window
    {
      buckets := map[];
      this.limit := limit;
      this.window := window;
    }

    /** The check in add_to_queue: trim the user's deque from the front,
        refuse when it is full, otherwise record `now`. The eviction stays in
        effect on a refusal. */
    method Allow(user: string, now: int) returns (allowed: bool)
      requires Valid()
      modifies this
      ensures Valid()
      ensures var d := Admit(old(Bucket(user)), now, window, limit);
              allowed == d.allowed && buckets == old(buckets)[user := d.bucket]
    {
      var bucket := Bucket(user);
      ghost var start := bucket;
      ghost var d := Admit(start, now, window, limit);
      assert |d.bucket| <= limit by { AdmitBounded(start, now, window, limit); }
      while bucket != [] && now - bucket[0] > window
        invariant Evict(bucket, now, window) == Evict(start, now, window)
        decreases |bucket|
      {
        bucket := bucket[1..];
      }
      if |bucket| >= limit {
        buckets := buckets[user := bucket];
        allowed := false;
      } else {
        buckets := buckets[user := bucket + [now]];
        allowed := true;
      }
    }
  }
}

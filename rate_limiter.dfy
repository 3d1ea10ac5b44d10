/** The client-side sliding-window rate limiter: per key, the timestamps
    (in milliseconds) of the attempts it let through. The clock is the `now`
    argument of each call. */
module RateLimiting {

  /** The timestamps still inside the window at `now`, in their order: the
      `filter(time => now - time < windowMs)` of the source. */
  function Recent(attempts: seq<int>, now: int, windowMs: int): (r: seq<int>)
    ensures |r| <= |attempts|
    ensures forall t :: t in r <==> t in attempts && now - t < windowMs
    decreases |attempts|
  {
    if attempts == [] then []
    else
      var rest := Recent(attempts[1..], now, windowMs);
      assert forall t :: t in attempts <==> t == attempts[0] || t in attempts[1..];
      if now - attempts[0] < windowMs then [attempts[0]] + rest else rest
  }

  /** The smallest timestamp: `Math.min(...attempts)`. */
  function Min(s: seq<int>): (m: int)
    requires s != []
    ensures m in s && forall t :: t in s ==> m <= t
    decreases |s|
  {
    if |s| == 1 then s[0]
    else
      var m := Min(s[1..]);
      assert forall t :: t in s ==> t == s[0] || t in s[1..];
      if s[0] <= m then s[0] else m
  }

  function Max(a: int, b: int): int {
    if a >= b then a else b
  }

  /** Pruning at an earlier instant and again at a later one is pruning at
      the later one: a timestamp outside the window stays outside as the
      clock moves on. */
  lemma {:induction false} PruneLater(attempts: seq<int>, earlier: int, later: int, windowMs: int)
    requires earlier <= later
    ensures Recent(Recent(attempts, earlier, windowMs), later, windowMs) == Recent(attempts, later, windowMs)
    decreases |attempts|
  {
    if attempts != [] {
      PruneLater(attempts[1..], earlier, later, windowMs);
      var rest := Recent(attempts[1..], earlier, windowMs);
      if earlier - attempts[0] < windowMs {
        assert ([attempts[0]] + rest)[1..] == rest;
      }
    }
  }

  /** The filter keeps the order of the attempts: filtering a list in two
      parts is filtering each part; with the single-element case below this
      determines the result completely. */
  lemma {:induction false} RecentConcat(a: seq<int>, b: seq<int>, now: int, windowMs: int)
    ensures Recent(a + b, now, windowMs) == Recent(a, now, windowMs) + Recent(b, now, windowMs)
    decreases |a|
  {
    if a == [] {
      assert a + b == b;
    } else {
      assert (a + b)[1..] == a[1..] + b;
      RecentConcat(a[1..], b, now, windowMs);
      var here := if now - a[0] < windowMs then [a[0]] else [];
      assert Recent(a + b, now, windowMs) == here + Recent(a[1..] + b, now, windowMs);
      assert Recent(a, now, windowMs) == here + Recent(a[1..], now, windowMs);
    }
  }

  lemma RecentSingle(t: int, now: int, windowMs: int)
    ensures Recent([t], now, windowMs) == if now - t < windowMs then [t] else []
  {
    assert [t][1..] == [];
  }

  /** Every copy of a timestamp inside the window survives and every copy
      outside is dropped, so the length `canAttempt` compares with
      `maxAttempts` counts repeated timestamps once per attempt. */
  lemma {:induction false} RecentMultiplicity(attempts: seq<int>, now: int, windowMs: int)
    ensures forall t :: multiset(Recent(attempts, now, windowMs))[t]
                          == if now - t < windowMs then multiset(attempts)[t] else 0
    decreases |attempts|
  {
    if attempts != [] {
      var rest := attempts[1..];
      RecentMultiplicity(rest, now, windowMs);
      assert attempts == [attempts[0]] + rest;
      assert multiset(attempts) == multiset([attempts[0]]) + multiset(rest);
      var here := if now - attempts[0] < windowMs then [attempts[0]] else [];
      assert Recent(attempts, now, windowMs) == here + Recent(rest, now, windowMs);
      assert multiset(Recent(attempts, now, windowMs)) == multiset(here) + multiset(Recent(rest, now, windowMs));
    }
  }

  /** Nothing is pruned when every attempt is inside the window. */
  lemma {:induction false} RecentKeepsAll(attempts: seq<int>, now: int, windowMs: int)
    requires forall t :: t in attempts ==> now - t < windowMs
    ensures Recent(attempts, now, windowMs) == attempts
    decreases |attempts|
  {
    if attempts != [] {
      assert forall t :: t in attempts[1..] ==> t in attempts;
      RecentKeepsAll(attempts[1..], now, windowMs);
      assert attempts[0] in attempts;
      assert attempts == [attempts[0]] + attempts[1..];
    }
  }

  class ClientRateLimiter {
    /** The `attempts` map: the recorded timestamps of each key. */
    var attempts: map<string, seq<int>>

    /** A key is stored only with the attempt just let through, so no
        stored history is empty: a stored key always has an oldest
        attempt for `getRemainingTime` to measure from. */
    ghost predicate Valid()
      reads this
    {
      forall k :: k in attempts ==> attempts[k] != []
    }

    constructor()
      ensures attempts == map[] && Valid()
    {
      attempts := map[];
    }

    /** `attempts.get(key) || []`. */
    function History(key: string): seq<int>
      reads this
    {
      if key in attempts then attempts[key] else []
    }

    /** `canAttempt`: drops the key's timestamps outside the window; if as
        many as `maxAttempts` remain, refuses and records nothing; otherwise
        records `now` after the remaining ones and allows. */
    method CanAttempt(key: string, now: int, maxAttempts: int := 5, windowMs: int := 60000)
      returns (allowed: bool)
      requires Valid()
      modifies this
      ensures Valid()
      ensures allowed <==> |Recent(old(History(key)), now, windowMs)| < maxAttempts
      ensures !allowed ==> attempts == old(attempts)
      ensures allowed ==> attempts == old(attempts)[key := Recent(old(History(key)), now, windowMs) + [now]]
      ensures allowed ==> |History(key)| <= maxAttempts && now in History(key)
      ensures forall k :: k != key ==> History(k) == old(History(k))
    {
      var userAttempts := History(key);
      var recentAttempts := Recent(userAttempts, now, windowMs);
      if |recentAttempts| >= maxAttempts {
        return false;
      }
      recentAttempts := recentAttempts + [now];
      attempts := attempts[key := recentAttempts];
      return true;
    }

    /** `getRemainingTime`: how long until the oldest recorded attempt of
        the key leaves the window, never negative, and 0 for a key with no
        attempts. */
    method GetRemainingTime(key: string, now: int, windowMs: int := 60000) returns (ms: int)
      requires Valid()
      ensures key !in attempts ==> ms == 0
      ensures key in attempts ==> ms == Max(0, windowMs - (now - Min(attempts[key])))
      ensures ms >= 0
      ensures ms > 0 <==> History(key) != [] && forall t :: t in History(key) ==> now - t < windowMs
      ensures windowMs >= 0 && (forall t :: t in History(key) ==> t <= now) ==> ms <= windowMs
    {
      var userAttempts := History(key);
      if |userAttempts| == 0 {
        return 0;
      }
      var oldestAttempt := Min(userAttempts);
      var timeElapsed := now - oldestAttempt;
      ms := Max(0, windowMs - timeElapsed);
    }
  }

  /** With a limit of three attempts, three calls at one instant are
      allowed, the fourth is refused, and a call a full window later is
      allowed again; meanwhile the key must wait the whole window. */
  method ThreeAttemptsThenWindow() returns (a: bool, b: bool, c: bool, d: bool, wait: int, e: bool)
    ensures a && b && c && !d && wait == 60000 && e
  {
    var limiter := new ClientRateLimiter();
    a := limiter.CanAttempt("login", 1000, 3);
    b := limiter.CanAttempt("login", 1000, 3);
    c := limiter.CanAttempt("login", 1000, 3);
    d := limiter.CanAttempt("login", 1000, 3);
    wait := limiter.GetRemainingTime("login", 1000);
    e := limiter.CanAttempt("login", 61000, 3);
  }
}

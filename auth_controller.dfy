/**
 * `AuthController`: the admin login with its rate limit. Failed attempts are counted per
 * attempt key (user name and client address) in a cache file; an entry holds a count and
 * an expiry time. While an entry has not expired and its count has reached the limit,
 * login attempts are refused before the credentials are looked at. Each failure restarts
 * the window; a success clears the entry.
 *
 * The cache file is modelled by what `readAttempts` can find in it: nothing, something
 * it cannot use, or a decoded map of entries. The credential check (`hash_equals` and
 * `password_verify`) is the parameter `credentialsOk`, `time()` is `now`, and the attempt
 * key is the text `sha256` is applied to.
 */
module AuthController {
  import opened Wrappers
  import opened AppKernel

  datatype Attempt = Attempt(count: int, expires: int)

  /** What `readAttempts` finds: no file, an unreadable or blank one, text that is not
      JSON, JSON that is not an array, or the decoded entries. */
  datatype CacheFile = Absent | Unreadable | Blank | Malformed | NotAnArray | Entries(entries: map<string, Attempt>)

  const LoginPath: string := "/admin/login"
  const AdminPath: string := "/admin"
  const TooMany: Flash := Flash("error", "Too many login attempts. Please try again later.")
  const InvalidCredentials: Flash := Flash("error", "Invalid credentials.")

  /** `readAttempts`: every fallback reads as no entries at all. */
  function Decoded(file: CacheFile): (r: map<string, Attempt>)
    ensures file.Entries? ==> r == file.entries
    ensures !file.Entries? ==> r == map[]
  {
    if file.Entries? then file.entries else map[]
  }

  /** The text the attempt key hashes: `$username . '|' . $ip`. */
  function AttemptKey(username: string, ip: string): string
  {
    username + "|" + ip
  }

  /** The entry for `key` is there and its window has passed (`time() > $expires`). */
  predicate Expired(attempts: map<string, Attempt>, key: string, now: int)
  {
    key in attempts && now > attempts[key].expires
  }

  /** `isRateLimited`'s answer: a live entry whose count has reached the limit. */
  predicate RateLimited(attempts: map<string, Attempt>, key: string, now: int, limit: int)
  {
    key in attempts && now <= attempts[key].expires && attempts[key].count >= limit
  }

  /** The entries after `isRateLimited`: an expired entry for the key is dropped. */
  function Checked(attempts: map<string, Attempt>, key: string, now: int): map<string, Attempt>
  {
    if Expired(attempts, key, now) then attempts - {key} else attempts
  }

  /** The entries after `recordAttempt`: a missing or expired entry restarts at one, a live
      one counts up; either way the window restarts at `now`. */
  function Recorded(attempts: map<string, Attempt>, key: string, now: int, window: int): (r: map<string, Attempt>)
    ensures r.Keys == attempts.Keys + {key}
    ensures forall k | k in attempts && k != key :: r[k] == attempts[k]
    ensures r[key].expires == now + window
    ensures r[key].count == if key !in attempts || Expired(attempts, key, now) then 1 else attempts[key].count + 1
  {
    if key !in attempts || now > attempts[key].expires then attempts[key := Attempt(1, now + window)]
    else attempts[key := Attempt(attempts[key].count + 1, now + window)]
  }

  /** Dropping an expired entry first does not change what a failure records. */
  lemma RecordAfterCheck(attempts: map<string, Attempt>, key: string, now: int, window: int)
    ensures Recorded(Checked(attempts, key, now), key, now, window) == Recorded(attempts, key, now, window)
  {
  }

  /** An entry whose window has passed never limits, and the check drops it. */
  lemma ExpiredNeverLimits(attempts: map<string, Attempt>, key: string, now: int, limit: int)
    requires Expired(attempts, key, now)
    ensures !RateLimited(attempts, key, now, limit)
    ensures key !in Checked(attempts, key, now)
  {
  }

  /** Failures at the given times, in order, each recorded as `recordAttempt` does. */
  function RecordAll(attempts: map<string, Attempt>, key: string, times: seq<int>, window: int): map<string, Attempt>
    decreases |times|
  {
    if times == [] then attempts
    else Recorded(RecordAll(attempts, key, times[..|times| - 1], window), key, times[|times| - 1], window)
  }

  /** Failures no more than `window` apart, each after the one before. */
  predicate WithinWindow(times: seq<int>, window: int)
  {
    forall i | 0 < i < |times| :: times[i - 1] <= times[i] <= times[i - 1] + window
  }

  /**
   * Failures that follow each other within the window accumulate: starting from no live
   * entry, `n` of them leave a count of `n`, expiring a window after the last one.
   */
  lemma {:induction false} FailuresAccumulate(attempts: map<string, Attempt>, key: string, times: seq<int>, window: int)
    requires times != [] && WithinWindow(times, window)
    requires key !in attempts || Expired(attempts, key, times[0])
    ensures var r := RecordAll(attempts, key, times, window);
      key in r && r[key] == Attempt(|times|, times[|times| - 1] + window)
    decreases |times|
  {
    if |times| > 1 {
      var init := times[..|times| - 1];
      assert WithinWindow(init, window);
      FailuresAccumulate(attempts, key, init, window);
    }
  }

  /**
   * The lock-out: once `limit` failures have followed each other within the window, the
   * key is refused until a window has passed since the last one, and admitted after.
   */
  lemma Lockout(attempts: map<string, Attempt>, key: string, times: seq<int>, window: int, limit: int, now: int)
    requires times != [] && WithinWindow(times, window)
    requires key !in attempts || Expired(attempts, key, times[0])
    requires times[|times| - 1] <= now
    ensures RateLimited(RecordAll(attempts, key, times, window), key, now, limit)
      <==> |times| >= limit && now <= times[|times| - 1] + window
  {
    FailuresAccumulate(attempts, key, times, window);
  }

  /** A success clears the key: the next attempt is never limited. */
  lemma ClearedNeverLimits(attempts: map<string, Attempt>, key: string, now: int, limit: int)
    ensures !RateLimited(attempts - {key}, key, now, limit)
  {
  }

  class Auth {
    const kernel: Kernel
    /** `security('login')['rate_limit']` and `['window']`. */
    const limit: int
    const window: int
    var cache: CacheFile
    /** `$_SESSION['admin_authenticated']` and `$_SESSION['admin_username']`. */
    var authenticated: bool
    var user: Option<string>

    constructor (kernel: Kernel, limit: int, window: int, cache: CacheFile)
      ensures this.kernel == kernel && this.limit == limit && this.window == window
      ensures this.cache == cache && !authenticated && user == None
    {
      this.kernel := kernel;
      this.limit := limit;
      this.window := window;
      this.cache := cache;
      authenticated := false;
      user := None;
    }

    /** `isRateLimited`: drops (and writes back) an expired entry; otherwise reads only. */
    method IsRateLimited(key: string, now: int) returns (limited: bool)
      modifies this
      ensures limited == RateLimited(Decoded(old(cache)), key, now, limit)
      ensures cache == if Expired(Decoded(old(cache)), key, now)
        then Entries(Checked(Decoded(old(cache)), key, now)) else old(cache)
      ensures Decoded(cache) == Checked(Decoded(old(cache)), key, now)
      ensures authenticated == old(authenticated) && user == old(user)
    {
      var attempts := Decoded(cache);
      if key !in attempts {
        return false;
      }
      var entry := attempts[key];
      if now > entry.expires {
        cache := Entries(attempts - {key});
        return false;
      }
      limited := entry.count >= limit;
    }

    /** `recordAttempt`. */
    method RecordAttempt(key: string, now: int)
      modifies this
      ensures cache == Entries(Recorded(Decoded(old(cache)), key, now, window))
      ensures authenticated == old(authenticated) && user == old(user)
    {
      var attempts := Decoded(cache);
      var expires := now + window;
      if key !in attempts || now > attempts[key].expires {
        attempts := attempts[key := Attempt(1, expires)];
      } else {
        attempts := attempts[key := Attempt(attempts[key].count + 1, expires)];
      }
      cache := Entries(attempts);
    }

    /** `clearAttempts`. */
    method ClearAttempts(key: string)
      modifies this
      ensures cache == Entries(Decoded(old(cache)) - {key})
      ensures authenticated == old(authenticated) && user == old(user)
    {
      cache := Entries(Decoded(cache) - {key});
    }

    /**
     * `login`: a limited key gets the "too many" flash and nothing else; correct
     * credentials sign in, clear the key and go to `/admin`; wrong ones count a failure
     * and get the "invalid" flash.
     */
    method Login(username: string, ip: string, now: int, credentialsOk: bool) returns (location: string)
      modifies this, kernel
      ensures kernel.routes == old(kernel.routes) && kernel.csrf == old(kernel.csrf)
      ensures var a := Decoded(old(cache)); var key := AttemptKey(username, ip);
        && (RateLimited(a, key, now, limit) ==>
              && location == LoginPath && kernel.flashes == old(kernel.flashes) + [TooMany]
              && cache == old(cache) && authenticated == old(authenticated) && user == old(user))
        && (!RateLimited(a, key, now, limit) && credentialsOk ==>
              && location == AdminPath && kernel.flashes == old(kernel.flashes)
              && cache == Entries(a - {key}) && authenticated && user == Some(username))
        && (!RateLimited(a, key, now, limit) && !credentialsOk ==>
              && location == LoginPath && kernel.flashes == old(kernel.flashes) + [InvalidCredentials]
              && cache == Entries(Recorded(a, key, now, window))
              && authenticated == old(authenticated) && user == old(user))
    {
      var key := AttemptKey(username, ip);
      ghost var a := Decoded(cache);
      var limited := IsRateLimited(key, now);
      if limited {
        kernel.AddFlash(TooMany.kind, TooMany.message);
        return LoginPath;
      }
      if credentialsOk {
        authenticated := true;
        user := Some(username);
        ClearAttempts(key);
        assert Checked(a, key, now) - {key} == a - {key};
        return AdminPath;
      }
      RecordAttempt(key, now);
      RecordAfterCheck(a, key, now, window);
      kernel.AddFlash(InvalidCredentials.kind, InvalidCredentials.message);
      location := LoginPath;
    }
  }

  /**
   * The feature test with a limit of 1: from an empty cache the first wrong password is
   * counted and the second one, in the same window, is refused as too many attempts.
   */
  lemma RateLimitTest(key: string, t1: int, t2: int, window: int)
    requires window == 600 && t1 <= t2 <= t1 + window
    ensures var afterFirst := Recorded(Decoded(Absent), key, t1, window);
      !RateLimited(Decoded(Absent), key, t1, 1) && RateLimited(afterFirst, key, t2, 1)
  {
  }
}

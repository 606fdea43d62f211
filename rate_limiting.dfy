/**
 * The per-client admission filter: which paths are limited, how a client is
 * identified, the registry of per-client limiters and the idle reaper.
 * Time is an integer count of milliseconds; the limiter's own permit
 * accounting is an oracle `tryAcquire` handed to each request.
 */
module RateLimiting {
  import opened Wrappers
  import opened JavaStrings

  // ---------------------------------------------------------------------------
  // Endpoint classifier

  const AuthPath := "/api/auth/"
  const AuthVerifyPath := "/api/auth/verify"
  const UsersPath := "/api/users/"
  const AdminPath := "/api/admin/"

  /** Whether a request path is subject to limiting (substring, not prefix, matching). */
  predicate IsRateLimitedEndpoint(path: string)
  {
    (Contains(path, AuthPath) && !Contains(path, AuthVerifyPath))
    || Contains(path, UsersPath)
    || Contains(path, AdminPath)
  }

  /**
   * The classifier against the reference meaning of "occurs": a path is
   * limited iff one of the guarded segments occurs in it at some index and,
   * for the auth segment, the verification segment occurs nowhere.
   */
  lemma LimitedIffOccurs(path: string)
    ensures IsRateLimitedEndpoint(path) <==>
      ((exists i :: OccursAt(path, AuthPath, i)) && !(exists i :: OccursAt(path, AuthVerifyPath, i)))
      || (exists i :: OccursAt(path, UsersPath, i))
      || (exists i :: OccursAt(path, AdminPath, i))
  {
    ContainsIffOccurs(path, AuthPath);
    ContainsIffOccurs(path, AuthVerifyPath);
    ContainsIffOccurs(path, UsersPath);
    ContainsIffOccurs(path, AdminPath);
  }

  /** A users or admin segment anywhere in the path, after any prefix, makes it limited. */
  lemma PrivilegedSegmentAnywhereIsLimited(x: string, y: string)
    ensures IsRateLimitedEndpoint(x + UsersPath + y)
    ensures IsRateLimitedEndpoint(x + AdminPath + y)
  {
    ContainsInfix(x, UsersPath, y);
    ContainsInfix(x, AdminPath, y);
  }

  /** An auth segment anywhere makes the path limited, unless it is the verification endpoint. */
  lemma AuthSegmentAnywhereIsLimited(x: string, y: string)
    requires !Contains(x + AuthPath + y, AuthVerifyPath)
    ensures IsRateLimitedEndpoint(x + AuthPath + y)
  {
    ContainsInfix(x, AuthPath, y);
  }

  /**
   * The verification endpoint is exempt: a path holding it is limited only
   * through a users or admin segment, even though it always holds the auth segment.
   */
  lemma VerifyIsExempt(path: string)
    requires Contains(path, AuthVerifyPath)
    ensures Contains(path, AuthPath)
    ensures IsRateLimitedEndpoint(path) <==> Contains(path, UsersPath) || Contains(path, AdminPath)
  {
    assert AuthVerifyPath == AuthPath + "verify";
    ContainsInfix([], AuthPath, "verify");
    assert [] + AuthPath + "verify" == AuthVerifyPath;
    ContainsTransitive(path, AuthVerifyPath, AuthPath);
  }

  /** A path that is shorter than every guarded segment is never limited. */
  lemma ShortPathsPass(path: string)
    requires |path| < |AuthPath|
    ensures !IsRateLimitedEndpoint(path)
  {
    assert |AuthPath| == 10 && |UsersPath| == 11 && |AdminPath| == 11;
    ContainsIffOccurs(path, AuthPath);
    ContainsIffOccurs(path, UsersPath);
    ContainsIffOccurs(path, AdminPath);
  }

  /** The sign-in endpoint is limited. */
  lemma SignInIsLimited()
    ensures IsRateLimitedEndpoint("/api/auth/signin")
  {
    var p := "/api/auth/signin";
    assert [] + AuthPath + "signin" == p;
    assert 'v' in AuthVerifyPath && 'v' !in p;
    if Contains(p, AuthVerifyPath) { ContainsChars(p, AuthVerifyPath, 'v'); }
    AuthSegmentAnywhereIsLimited([], "signin");
  }

  /** The verification endpoint is not limited. */
  lemma VerifyEndpointPasses()
    ensures !IsRateLimitedEndpoint("/api/auth/verify")
  {
    var p := "/api/auth/verify";
    assert StartsWith(p, AuthVerifyPath);
    assert 's' in UsersPath && 's' !in p;
    assert 'n' in AdminPath && 'n' !in p;
    if Contains(p, UsersPath) { ContainsChars(p, UsersPath, 's'); }
    if Contains(p, AdminPath) { ContainsChars(p, AdminPath, 'n'); }
  }

  /** A task endpoint is not limited. */
  lemma TaskEndpointPasses()
    ensures !IsRateLimitedEndpoint("/api/tasks/1")
  {
    var p := "/api/tasks/1";
    assert 'h' in AuthPath && 'h' !in p;
    assert 'r' in UsersPath && 'r' !in p;
    assert 'm' in AdminPath && 'm' !in p;
    if Contains(p, AuthPath) { ContainsChars(p, AuthPath, 'h'); }
    if Contains(p, UsersPath) { ContainsChars(p, UsersPath, 'r'); }
    if Contains(p, AdminPath) { ContainsChars(p, AdminPath, 'm'); }
  }

  // ---------------------------------------------------------------------------
  // Client-key resolver

  /** Why a request could not be given a client key. */
  datatype KeyError = EmptySplit  // split(",") of the header returned no element, so [0] throws

  /**
   * The client key: the remote address when there is no X-Forwarded-For
   * header, otherwise the trimmed text before the header's first comma.
   */
  function ClientKey(forwardedFor: Option<string>, remoteAddr: string): (r: Result<string, KeyError>)
    ensures forwardedFor.None? ==> r == Ok(remoteAddr)
    ensures forwardedFor.Some? ==> (r.Err? <==> SplitIsEmpty(forwardedFor.value))
    ensures forwardedFor.Some? && !SplitIsEmpty(forwardedFor.value) ==>
      forall n :: EndsFirstField(forwardedFor.value, n) ==> r == Ok(Trim(forwardedFor.value[..n]))
    ensures forwardedFor.Some? && r.Ok? ==> ',' !in r.value && IsTrimmed(r.value)
  {
    match forwardedFor
    case None => Ok(remoteAddr)
    case Some(header) =>
      if SplitIsEmpty(header) then Err(EmptySplit)
      else
        var f := FirstField(header);
        var k := Trim(f);
        assert forall n :: EndsFirstField(header, n) ==> k == Trim(header[..n]) by {
          forall n | EndsFirstField(header, n) ensures k == Trim(header[..n]) {
            FirstFieldUnique(header, n);
          }
        }
        Ok(k)
  }

  /**
   * The key taken from a header is the trimmed first field, whatever follows
   * the comma, unless the whole header is commas and split yields nothing.
   */
  lemma ForwardedKeyIsFirstField(first: string, rest: string, remoteAddr: string)
    requires ',' !in first
    ensures ClientKey(Some(first + "," + rest), remoteAddr) ==
      if first == [] && forall i :: 0 <= i < |rest| ==> rest[i] == ',' then Err(EmptySplit)
      else Ok(Trim(first))
  {
    var header := first + "," + rest;
    FirstFieldOfJoin(first, rest);
    if first != [] {
      assert header[0] == first[0] && first[0] in first;
    } else if !forall i :: 0 <= i < |rest| ==> rest[i] == ',' {
      var i :| 0 <= i < |rest| && rest[i] != ',';
      assert header[i + 1] == rest[i];
    } else {
      assert forall i :: 0 <= i < |header| ==> header[i] == (if i == 0 then ',' else rest[i - 1]);
    }
  }

  /**
   * A header holding one address with blanks around it and no comma yields
   * that address: only the padding is trimmed away.
   */
  lemma PaddedHeaderIsKey(p: string, a: string, q: string, remoteAddr: string)
    requires IsBlank(p) && IsBlank(q)
    requires a != [] && ',' !in a && IsTrimmed(a)
    ensures ClientKey(Some(p + a + q), remoteAddr) == Ok(a)
  {
    var header := p + a + q;
    assert header[|p|] == a[0];
    forall k | 0 <= k < |header| ensures header[k] != ',' {
      if k < |p| {
        assert header[k] == p[k];
      } else if k < |p| + |a| {
        assert header[k] == a[k - |p|];
      } else {
        assert header[k] == q[k - |p| - |a|];
      }
    }
    assert EndsFirstField(header, |header|);
    assert header[..|header|] == header;
    TrimOfPadded(p, a, q);
  }

  // ---------------------------------------------------------------------------
  // Registry entries and the decision

  /** The identity of one RateLimiter object; each entry owns its own. */
  type LimiterId = nat

  /** RateLimiterEntry: a limiter handle and when the client last came through. */
  datatype RateLimiterEntry = RateLimiterEntry(limiter: LimiterId, lastAccessed: int)

  const TooManyRequests := 429
  const TooManyRequestsBody := "Too many requests. Please try again later."
  const RetryAfterSeconds := "60"
  const MillisPerMinute := 60000

  /**
   * What the filter does with a request: hand it on without limiting (Pass),
   * hand it on after a permit was taken (Allow), answer it itself (Deny), or
   * let an exception escape (Unhandled).
   */
  datatype Decision =
    | Pass
    | Allow
    | Deny(status: int, body: string, retryAfter: string)
    | Unhandled(error: KeyError)
  {
    /** Whether the rest of the filter chain runs. */
    predicate InvokesChain() { Pass? || Allow? }
  }

  /** The outcome of a limited request once the limiter has answered. */
  function Decide(acquired: bool): (d: Decision)
    ensures d.InvokesChain() <==> acquired
    ensures d == Allow <==> acquired
    ensures !acquired ==> d == Deny(TooManyRequests, TooManyRequestsBody, RetryAfterSeconds)
  {
    if acquired then Allow else Deny(TooManyRequests, TooManyRequestsBody, RetryAfterSeconds)
  }

  /**
   * computeIfAbsent: the entry for `key`, created with the limiter `newLimiter`
   * when there is none; every existing entry is kept as it is.
   */
  function LookupOrCreate(entries: map<string, RateLimiterEntry>, key: string, newLimiter: LimiterId, now: int)
    : (r: map<string, RateLimiterEntry>)
    ensures r.Keys == entries.Keys + {key}
    ensures forall k :: k in entries ==> r[k] == entries[k]
    ensures key !in entries ==> r[key].limiter == newLimiter && r[key].lastAccessed == now
  {
    if key in entries then entries else entries[key := RateLimiterEntry(newLimiter, now)]
  }

  /** updateLastAccessed on the entry for `key`: only its timestamp changes. */
  function Touch(entries: map<string, RateLimiterEntry>, key: string, now: int): (r: map<string, RateLimiterEntry>)
    requires key in entries
    ensures r.Keys == entries.Keys
    ensures r[key] == RateLimiterEntry(entries[key].limiter, now)
    ensures forall k :: k in entries && k != key ==> r[k] == entries[k]
  {
    entries[key := entries[key].(lastAccessed := now)]
  }

  /** The registry after a limited request from `key` at time `now`. */
  function Admit(entries: map<string, RateLimiterEntry>, key: string, newLimiter: LimiterId, now: int)
    : (r: map<string, RateLimiterEntry>)
  {
    Touch(LookupOrCreate(entries, key, newLimiter, now), key, now)
  }

  /**
   * After a limited request the client has an entry stamped `now`; an old
   * client keeps its limiter, a new one gets `newLimiter`; other clients are untouched.
   */
  lemma AdmitEffect(entries: map<string, RateLimiterEntry>, key: string, newLimiter: LimiterId, now: int)
    ensures Admit(entries, key, newLimiter, now).Keys == entries.Keys + {key}
    ensures Admit(entries, key, newLimiter, now)[key].lastAccessed == now
    ensures Admit(entries, key, newLimiter, now)[key].limiter ==
      if key in entries then entries[key].limiter else newLimiter
    ensures forall k :: k in entries && k != key ==> Admit(entries, key, newLimiter, now)[k] == entries[k]
  {
  }

  /** With a clock that does not run backwards, no entry's timestamp ever decreases. */
  lemma AdmitKeepsTimestampsMonotone(entries: map<string, RateLimiterEntry>, key: string, newLimiter: LimiterId, now: int)
    requires forall k :: k in entries ==> entries[k].lastAccessed <= now
    ensures forall k :: k in entries ==>
      entries[k].lastAccessed <= Admit(entries, key, newLimiter, now)[k].lastAccessed <= now
  {
  }

  // ---------------------------------------------------------------------------
  // Idle reaper

  /** An entry is expired when it was last used strictly before the threshold. */
  predicate IsExpired(e: RateLimiterEntry, threshold: int)
  {
    e.lastAccessed < threshold
  }

  /** The clients whose entries the reaper removes. */
  function ExpiredKeys(entries: map<string, RateLimiterEntry>, threshold: int): (r: set<string>)
    ensures r <= entries.Keys
    ensures forall k :: k in entries ==> (k in r <==> IsExpired(entries[k], threshold))
  {
    set k | k in entries && IsExpired(entries[k], threshold)
  }

  /** removeIf: the entries that are not expired, each left as it was. */
  function RemoveExpired(entries: map<string, RateLimiterEntry>, threshold: int): (r: map<string, RateLimiterEntry>)
    ensures r.Keys == entries.Keys - ExpiredKeys(entries, threshold)
    ensures forall k :: k in r ==> r[k] == entries[k]
    ensures forall k :: k in entries && entries[k].lastAccessed == threshold ==> k in r
  {
    map k | k in entries && !IsExpired(entries[k], threshold) :: entries[k]
  }

  /** The count the reaper logs is the number of expired entries, never negative. */
  lemma RemovedCount(entries: map<string, RateLimiterEntry>, threshold: int)
    ensures |entries| - |RemoveExpired(entries, threshold)| == |ExpiredKeys(entries, threshold)| >= 0
  {
    var kept := RemoveExpired(entries, threshold);
    var gone := ExpiredKeys(entries, threshold);
    assert kept.Keys + gone == entries.Keys;
    assert kept.Keys !! gone;
    assert |kept.Keys + gone| == |kept.Keys| + |gone|;
    assert |kept| == |kept.Keys| && |entries| == |entries.Keys|;
  }

  /** A second reaper run at the same threshold removes nothing. */
  lemma RemoveExpiredIdempotent(entries: map<string, RateLimiterEntry>, threshold: int)
    ensures ExpiredKeys(RemoveExpired(entries, threshold), threshold) == {}
    ensures RemoveExpired(RemoveExpired(entries, threshold), threshold) == RemoveExpired(entries, threshold)
  {
  }

  /**
   * A client seen at time `seen` survives a reaper run at `threshold` exactly
   * when `seen` is not before the threshold; other clients fare as before.
   */
  lemma SurvivesIffRecent(entries: map<string, RateLimiterEntry>, key: string, newLimiter: LimiterId, seen: int, threshold: int)
    ensures key in RemoveExpired(Admit(entries, key, newLimiter, seen), threshold) <==> seen >= threshold
    ensures forall k :: k != key ==>
      (k in RemoveExpired(Admit(entries, key, newLimiter, seen), threshold) <==> k in RemoveExpired(entries, threshold))
  {
  }

  // ---------------------------------------------------------------------------
  // The filter

  /** RateLimitingFilter: its configuration and the registry it owns. */
  class RateLimitingFilter {
    const enabled: bool
    const expirationMinutes: int
    /** limiterEntries, keyed by client key. */
    var entries: map<string, RateLimiterEntry>
    /** The identity the next RateLimiter created will have. */
    var nextLimiter: LimiterId

    /** Every entry owns a limiter created so far, and no two entries share one. */
    ghost predicate Valid()
      reads this
    {
      && (forall k :: k in entries ==> entries[k].limiter < nextLimiter)
      && (forall k1, k2 :: k1 in entries && k2 in entries && k1 != k2 ==>
            entries[k1].limiter != entries[k2].limiter)
    }

    constructor (enabled: bool, expirationMinutes: int)
      ensures Valid()
      ensures this.enabled == enabled && this.expirationMinutes == expirationMinutes
      ensures entries == map[]
    {
      this.enabled := enabled;
      this.expirationMinutes := expirationMinutes;
      entries := map[];
      nextLimiter := 0;
    }

    /**
     * doFilterInternal for one request. A request that is not limited leaves
     * the registry as it was; a limited one refreshes (or creates) its
     * client's entry and is allowed exactly when its limiter grants a permit.
     */
    method DoFilter(path: string, forwardedFor: Option<string>, remoteAddr: string, now: int,
                    tryAcquire: LimiterId -> bool)
      returns (d: Decision)
      requires Valid()
      modifies this
      ensures Valid()
      ensures !enabled || !IsRateLimitedEndpoint(path) ==>
        d == Pass && entries == old(entries) && nextLimiter == old(nextLimiter)
      ensures enabled && IsRateLimitedEndpoint(path) && ClientKey(forwardedFor, remoteAddr).Err? ==>
        d == Unhandled(EmptySplit) && entries == old(entries) && nextLimiter == old(nextLimiter)
      ensures enabled && IsRateLimitedEndpoint(path) && ClientKey(forwardedFor, remoteAddr).Ok? ==>
        var key := ClientKey(forwardedFor, remoteAddr).value;
        && entries == Admit(old(entries), key, old(nextLimiter), now)
        && nextLimiter == (if key in old(entries) then old(nextLimiter) else old(nextLimiter) + 1)
        && d == Decide(tryAcquire(entries[key].limiter))
    {
      if !enabled || !IsRateLimitedEndpoint(path) {
        return Pass;
      }
      var key := ClientKey(forwardedFor, remoteAddr);
      if key.Err? {
        return Unhandled(key.error);
      }
      var clientIp := key.value;
      if clientIp !in entries {
        entries := entries[clientIp := RateLimiterEntry(nextLimiter, now)];
        nextLimiter := nextLimiter + 1;
      }
      var entry := entries[clientIp];
      entries := entries[clientIp := entry.(lastAccessed := now)];
      if tryAcquire(entry.limiter) {
        d := Allow;
      } else {
        d := Deny(TooManyRequests, TooManyRequestsBody, RetryAfterSeconds);
      }
    }

    /** cleanupOldLimiters at time `now`: drops every entry idle since before the window. */
    method CleanupOldLimiters(now: int) returns (removedCount: int)
      requires Valid()
      modifies this`entries
      ensures Valid()
      ensures entries == RemoveExpired(old(entries), now - expirationMinutes * MillisPerMinute)
      ensures removedCount == |ExpiredKeys(old(entries), now - expirationMinutes * MillisPerMinute)|
    {
      var expirationTime := now - expirationMinutes * MillisPerMinute;
      var beforeSize := |entries|;
      RemovedCount(entries, expirationTime);
      entries := RemoveExpired(entries, expirationTime);
      removedCount := beforeSize - |entries|;
    }
  }
}

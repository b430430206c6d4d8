/**
 * The newsletter subscription service with its in-memory backend: email shape
 * validation, case-insensitive duplicate detection over a list of subscriber
 * records, and a fixed-window per-client rate limiter.
 *
 * The module-level globals of the original (`subscribers` and `rateLimitMap`)
 * are the two fields of one `SubscriptionService` object. The clock, the id
 * generator and the ISO timestamp are parameters.
 */
module Newsletter {
  import opened Wrappers
  import opened Text

  // ---------------------------------------------------------------------------
  // Data model

  datatype Status = Active | Unsubscribed

  datatype Subscriber = Subscriber(id: string, email: string, subscribedAt: string, status: Status)

  /** One rate-limit record: attempts in the current window and the window's end (ms). */
  datatype Entry = Entry(count: nat, resetTime: nat)

  /** The outcome of one `checkRateLimit` call: the answer and the new rate-limit map. */
  datatype Decision = Decision(allowed: bool, limits: map<string, Entry>)

  const MaxAttempts: nat := 10
  const WindowMs: nat := 60 * 60 * 1000

  /** Messages of the errors `addSubscriber` throws. */
  const InvalidEmailFormat: string := "Invalid email format"
  const AlreadySubscribed: string := "Email already subscribed"

  // ---------------------------------------------------------------------------
  // isValidEmail: /^[^\s@]+@[^\s@]+\.[^\s@]+$/

  /** Every character matches `[^\s@]`. */
  predicate Plain(s: string) {
    forall i | 0 <= i < |s| :: !IsSpace(s[i]) && s[i] != '@'
  }

  /** The domain contains a `.` that is neither its first nor its last character. */
  predicate HasInnerDot(domain: string) {
    exists k | 0 < k < |domain| - 1 :: domain[k] == '.'
  }

  /**
   * `isValidEmail`: a non-empty local part, one `@`, and a domain with an inner
   * dot, with no whitespace and no further `@` anywhere.
   */
  predicate IsValidEmail(email: string)
    ensures IsValidEmail(email) ==> |email| >= 5
  {
    match IndexOfChar(email, '@')
    case None => false
    case Some(at) =>
      var local, domain := email[..at], email[at + 1..];
      assert forall i | 0 <= i < at :: email[i] == local[i];
      assert forall j | at < j < |email| :: email[j] == domain[j - at - 1];
      at > 0 && Plain(local) && Plain(domain) && HasInnerDot(domain)
  }

  /** An accepted address holds exactly one `@`. */
  lemma ValidEmailOneAt(email: string)
    requires IsValidEmail(email)
    ensures exists i | 0 <= i < |email| :: email[i] == '@'
    ensures forall i, j | 0 <= i < j < |email| :: !(email[i] == '@' && email[j] == '@')
  {
    var at := IndexOfChar(email, '@').value;
    var domain := email[at + 1..];
    assert forall j | at < j < |email| :: email[j] == domain[j - at - 1];
  }

  /** The regular expression read literally: `email` is `local@host.tld`, each part `[^\s@]+`. */
  ghost predicate RegexParts(email: string, local: string, host: string, tld: string) {
    && email == local + "@" + host + "." + tld
    && |local| > 0 && |host| > 0 && |tld| > 0
    && Plain(local) && Plain(host) && Plain(tld)
  }

  ghost predicate MatchesEmailRegex(email: string) {
    exists local, host, tld :: RegexParts(email, local, host, tld)
  }

  /** `isValidEmail` accepts exactly the strings the regular expression matches. */
  lemma IsValidEmailIsRegex(email: string)
    ensures IsValidEmail(email) <==> MatchesEmailRegex(email)
  {
    if IsValidEmail(email) {
      var local, host, tld := ValidEmailParts(email);
    }
    if MatchesEmailRegex(email) {
      var local, host, tld :| RegexParts(email, local, host, tld);
      RegexPartsValid(email, local, host, tld);
    }
  }

  /** An accepted address splits at its `@` and at an inner dot of the domain. */
  lemma ValidEmailParts(email: string) returns (local: string, host: string, tld: string)
    requires IsValidEmail(email)
    ensures RegexParts(email, local, host, tld)
  {
    var at := IndexOfChar(email, '@').value;
    var domain := email[at + 1..];
    var k :| 0 < k < |domain| - 1 && domain[k] == '.';
    local, host, tld := email[..at], domain[..k], domain[k + 1..];
    assert domain == host + "." + tld;
    assert email == local + "@" + domain;
    assert Plain(host) && Plain(tld);
  }

  /** An address read by the regular expression is accepted. */
  lemma RegexPartsValid(email: string, local: string, host: string, tld: string)
    requires RegexParts(email, local, host, tld)
    ensures IsValidEmail(email)
  {
    var domain := host + "." + tld;
    assert email == local + "@" + domain;
    assert email[|local|] == '@';
    assert email[..|local|] == local;
    assert '@' !in local;
    IndexOfCharAt(email, |local|, '@');
    assert email[|local| + 1..] == domain;
    assert domain[|host|] == '.';
    PlainAroundDot(host, tld);
  }

  lemma PlainAroundDot(host: string, tld: string)
    requires Plain(host) && Plain(tld)
    ensures Plain(host + "." + tld)
  {
    var domain := host + "." + tld;
    forall i | 0 <= i < |domain|
      ensures !IsSpace(domain[i]) && domain[i] != '@'
    {
      if i < |host| {
        assert domain[i] == host[i];
      } else if i > |host| {
        assert domain[i] == tld[i - |host| - 1];
      }
    }
  }

  /** Lower-casing (ASCII) never changes whether an address is valid. */
  lemma LowerKeepsValidity(email: string)
    ensures IsValidEmail(LowerStr(email)) == IsValidEmail(email)
  {
    var low := LowerStr(email);
    assert forall i | 0 <= i < |email| :: (low[i] == '@') == (email[i] == '@');
    if IndexOfChar(email, '@').Some? {
      var at := IndexOfChar(email, '@').value;
      assert low[..at] == LowerStr(email[..at]);
      IndexOfCharAt(low, at, '@');
      assert low[at + 1..] == LowerStr(email[at + 1..]);
      var d, ld := email[at + 1..], low[at + 1..];
      assert forall k | 0 <= k < |d| :: (ld[k] == '.') == (d[k] == '.');
      assert HasInnerDot(ld) == HasInnerDot(d);
    } else {
      assert '@' !in low;
    }
  }

  // ---------------------------------------------------------------------------
  // In-memory subscriber list

  /** `subscribers.some(...)`: an active record whose lower-cased email matches. */
  function ActiveMatchIn(subs: seq<Subscriber>, email: string): (found: bool)
    ensures found <==> exists i | 0 <= i < |subs| ::
      subs[i].status == Active && LowerStr(subs[i].email) == LowerStr(email)
  {
    if subs == [] then false
    else
      (subs[0].status == Active && LowerStr(subs[0].email) == LowerStr(email))
      || ActiveMatchIn(subs[1..], email)
  }

  /** `subscribers.filter(sub => sub.status === 'active')`. */
  function ActiveOnly(subs: seq<Subscriber>): (active: seq<Subscriber>)
    ensures |active| <= |subs|
    ensures forall k | 0 <= k < |active| :: active[k].status == Active && active[k] in subs
    ensures forall i | 0 <= i < |subs| && subs[i].status == Active :: subs[i] in active
  {
    if subs == [] then []
    else if subs[0].status == Active then [subs[0]] + ActiveOnly(subs[1..])
    else ActiveOnly(subs[1..])
  }

  /** Filtering commutes with appending: the active list grows in insertion order. */
  lemma {:induction false} ActiveOnlyAppend(subs: seq<Subscriber>, s: Subscriber)
    ensures ActiveOnly(subs + [s]) == ActiveOnly(subs) + (if s.status == Active then [s] else [])
  {
    if subs == [] {
      assert [] + [s] == [s];
    } else {
      assert (subs + [s])[1..] == subs[1..] + [s];
      ActiveOnlyAppend(subs[1..], s);
    }
  }

  /**
   * Appending an active record for a valid email that has no active record
   * yet keeps the list normalized and free of duplicates.
   */
  lemma AppendNewSubscriber(subs: seq<Subscriber>, email: string, s: Subscriber)
    requires UniqueActive(subs) && Normalized(subs)
    requires IsValidEmail(email) && !ActiveMatchIn(subs, email)
    requires s.email == LowerStr(email) && s.status == Active
    ensures UniqueActive(subs + [s]) && Normalized(subs + [s])
  {
    var all := subs + [s];
    assert all[|subs|] == s;
    assert forall i | 0 <= i < |subs| :: all[i] == subs[i];
    LowerStrIdempotent(email);
    LowerKeepsValidity(email);
  }

  /** No two active records share a lower-cased email. */
  ghost predicate UniqueActive(subs: seq<Subscriber>) {
    forall i, j | 0 <= i < j < |subs| && subs[i].status == Active && subs[j].status == Active ::
      LowerStr(subs[i].email) != LowerStr(subs[j].email)
  }

  /** Every stored email is already lower-case and well-formed. */
  ghost predicate Normalized(subs: seq<Subscriber>) {
    forall i | 0 <= i < |subs| :: subs[i].email == LowerStr(subs[i].email) && IsValidEmail(subs[i].email)
  }

  // ---------------------------------------------------------------------------
  // checkRateLimit as a function of the map

  /** `ip || 'unknown'`. */
  function RateLimitKey(ip: string): (key: string)
    ensures key != ""
    ensures ip != "" ==> key == ip
    ensures ip == "" ==> key == "unknown"
  {
    if ip == "" then "unknown" else ip
  }

  /** Every stored count is in 1..MaxAttempts. */
  ghost predicate LimitsInRange(limits: map<string, Entry>) {
    forall k | k in limits :: 1 <= limits[k].count <= MaxAttempts
  }

  /** One `checkRateLimit(ip)` call at time `now` against the map `limits`. */
  function RateLimitStep(limits: map<string, Entry>, ip: string, now: nat): (d: Decision)
    ensures d.limits.Keys == limits.Keys + {RateLimitKey(ip)}
    ensures forall k | k in limits && k != RateLimitKey(ip) :: d.limits[k] == limits[k]
    ensures !d.allowed ==> d.limits == limits
    ensures d.allowed ==> var key := RateLimitKey(ip);
      d.limits[key].count == 1 || (key in limits && d.limits[key].count == limits[key].count + 1)
    ensures LimitsInRange(limits) ==> LimitsInRange(d.limits)
  {
    var key := RateLimitKey(ip);
    if key !in limits || now > limits[key].resetTime then
      Decision(true, limits[key := Entry(1, now + WindowMs)])
    else if limits[key].count >= MaxAttempts then
      Decision(false, limits)
    else
      Decision(true, limits[key := limits[key].(count := limits[key].count + 1)])
  }

  /** A call by some client at some time. */
  datatype Call = Call(ip: string, now: nat)

  /** How many of `calls`, made in order from `limits`, are allowed for the client key `key`. */
  function AllowedFor(limits: map<string, Entry>, calls: seq<Call>, key: string): nat
    decreases |calls|
  {
    if calls == [] then 0
    else
      var d := RateLimitStep(limits, calls[0].ip, calls[0].now);
      (if d.allowed && RateLimitKey(calls[0].ip) == key then 1 else 0)
      + AllowedFor(d.limits, calls[1..], key)
  }

  function Min(a: int, b: int): int { if a <= b then a else b }

  /** The number of calls among `calls` that use the client key `key`. */
  function CallsFor(calls: seq<Call>, key: string): nat
  {
    if calls == [] then 0
    else (if RateLimitKey(calls[0].ip) == key then 1 else 0) + CallsFor(calls[1..], key)
  }

  /**
   * Inside an open window, whatever other clients do in between, exactly
   * `min(n, MaxAttempts - count)` of the client's next `n` calls are allowed,
   * and they are the first ones.
   */
  lemma {:induction false} OpenWindowQuota(limits: map<string, Entry>, calls: seq<Call>, key: string)
    requires key in limits && 1 <= limits[key].count <= MaxAttempts
    requires forall i | 0 <= i < |calls| && RateLimitKey(calls[i].ip) == key ::
      calls[i].now <= limits[key].resetTime
    ensures AllowedFor(limits, calls, key) == Min(CallsFor(calls, key), MaxAttempts - limits[key].count)
    decreases |calls|
  {
    if calls != [] {
      var d := RateLimitStep(limits, calls[0].ip, calls[0].now);
      assert key in d.limits && d.limits[key].resetTime == limits[key].resetTime;
      OpenWindowQuota(d.limits, calls[1..], key);
    }
  }

  /**
   * A window opened at time `start` lets through at most MaxAttempts calls of
   * the client among any calls made up to `start + WindowMs`: the opening call
   * and the next MaxAttempts - 1 are allowed, all later ones are denied.
   */
  lemma FreshWindowQuota(limits: map<string, Entry>, ip: string, start: nat, calls: seq<Call>)
    requires var key := RateLimitKey(ip); key !in limits || start > limits[key].resetTime
    requires forall i | 0 <= i < |calls| && RateLimitKey(calls[i].ip) == RateLimitKey(ip) ::
      calls[i].now <= start + WindowMs
    ensures var all := [Call(ip, start)] + calls; var key := RateLimitKey(ip);
      AllowedFor(limits, all, key) == Min(CallsFor(all, key), MaxAttempts)
  {
    var key := RateLimitKey(ip);
    var all := [Call(ip, start)] + calls;
    assert all[1..] == calls;
    var d := RateLimitStep(limits, ip, start);
    OpenWindowQuota(d.limits, calls, key);
  }

  // ---------------------------------------------------------------------------
  // The service object

  class SubscriptionService {
    /** The in-memory fallback list, in insertion order. */
    var subscribers: seq<Subscriber>
    /** Rate-limit records by client key. */
    var rateLimits: map<string, Entry>

    ghost predicate Valid()
      reads this
    {
      UniqueActive(subscribers) && Normalized(subscribers) && LimitsInRange(rateLimits)
    }

    constructor ()
      ensures Valid()
      ensures subscribers == [] && rateLimits == map[]
    {
      subscribers := [];
      rateLimits := map[];
    }

    /** `emailExists` on the in-memory backend. */
    function EmailExists(email: string): (found: bool)
      reads this
      ensures found <==> exists i | 0 <= i < |subscribers| ::
        subscribers[i].status == Active && LowerStr(subscribers[i].email) == LowerStr(email)
    {
      ActiveMatchIn(subscribers, email)
    }

    /** `getSubscribers` on the in-memory backend. */
    function GetSubscribers(): (active: seq<Subscriber>)
      reads this
      ensures |active| <= |subscribers|
      ensures forall k | 0 <= k < |active| :: active[k].status == Active && active[k] in subscribers
      ensures forall i | 0 <= i < |subscribers| && subscribers[i].status == Active :: subscribers[i] in active
    {
      ActiveOnly(subscribers)
    }

    /** `getSubscriberCount` on the in-memory backend. */
    function GetSubscriberCount(): (count: nat)
      reads this
      ensures count == |GetSubscribers()| && count <= |subscribers|
      ensures count == 0 <==> forall i | 0 <= i < |subscribers| :: subscribers[i].status != Active
    {
      var active := GetSubscribers();
      assert |active| == 0 ==> forall i | 0 <= i < |subscribers| :: subscribers[i] !in active;
      assert |active| > 0 ==> active[0] in subscribers && active[0].status == Active;
      |active|
    }

    /**
     * `addSubscriber` on the in-memory backend; `id` and `subscribedAt` stand for
     * `generateId()` and `new Date().toISOString()`.
     */
    method AddSubscriber(email: string, id: string, subscribedAt: string) returns (r: Result<Subscriber, string>)
      requires Valid()
      modifies this`subscribers
      ensures Valid()
      ensures !IsValidEmail(email) ==>
        r == Failure(InvalidEmailFormat) && subscribers == old(subscribers)
      ensures IsValidEmail(email) && old(EmailExists(email)) ==>
        r == Failure(AlreadySubscribed) && subscribers == old(subscribers)
      ensures IsValidEmail(email) && !old(EmailExists(email)) ==>
        && r == Success(Subscriber(id, LowerStr(email), subscribedAt, Active))
        && subscribers == old(subscribers) + [r.value]
      ensures r.Success? ==> forall t | LowerStr(t) == LowerStr(email) :: EmailExists(t)
      ensures r.Success? ==> GetSubscribers() == old(GetSubscribers()) + [r.value]
      ensures GetSubscriberCount() == old(GetSubscriberCount()) + (if r.Success? then 1 else 0)
    {
      if !IsValidEmail(email) {
        return Failure(InvalidEmailFormat);
      }
      if EmailExists(email) {
        return Failure(AlreadySubscribed);
      }
      var subscriber := Subscriber(id, LowerStr(email), subscribedAt, Active);
      AppendNewSubscriber(subscribers, email, subscriber);
      ActiveOnlyAppend(subscribers, subscriber);
      subscribers := subscribers + [subscriber];
      r := Success(subscriber);
      assert subscribers[|subscribers| - 1] == subscriber;
    }

    /** `checkRateLimit(ip)` at time `now` (ms). */
    method CheckRateLimit(ip: string, now: nat) returns (allowed: bool)
      requires Valid()
      modifies this`rateLimits
      ensures Valid()
      ensures Decision(allowed, rateLimits) == RateLimitStep(old(rateLimits), ip, now)
      ensures var key := RateLimitKey(ip);
        key !in old(rateLimits) || now > old(rateLimits)[key].resetTime ==>
          allowed && rateLimits == old(rateLimits)[key := Entry(1, now + WindowMs)]
      ensures var key := RateLimitKey(ip);
        key in old(rateLimits) && now <= old(rateLimits)[key].resetTime
        && old(rateLimits)[key].count >= MaxAttempts ==>
          !allowed && rateLimits == old(rateLimits)
      ensures var key := RateLimitKey(ip);
        key in old(rateLimits) && now <= old(rateLimits)[key].resetTime
        && old(rateLimits)[key].count < MaxAttempts ==>
          && allowed
          && rateLimits == old(rateLimits)[key := Entry(old(rateLimits)[key].count + 1, old(rateLimits)[key].resetTime)]
    {
      var key := RateLimitKey(ip);
      if key !in rateLimits || now > rateLimits[key].resetTime {
        rateLimits := rateLimits[key := Entry(1, now + WindowMs)];
        return true;
      }
      var limit := rateLimits[key];
      if limit.count >= MaxAttempts {
        return false;
      }
      rateLimits := rateLimits[key := limit.(count := limit.count + 1)];
      return true;
    }

    /** `resetRateLimits`: forget every client's record. */
    method ResetRateLimits()
      requires Valid()
      modifies this`rateLimits
      ensures Valid()
      ensures rateLimits == map[]
      ensures forall ip: string, now: nat :: RateLimitStep(rateLimits, ip, now).allowed
    {
      rateLimits := map[];
    }
  }
}

/** Sliding-window rate limiting: a pruned list of timestamps per key decides like a limiter that never forgets. */
module RateLimit {
  const DEFAULT_RATE: nat := 200
  const AUTH_RATE: nat := 10
  const BURST_RATE: nat := 60
  const WINDOW: real := 60.0
  const CLEANUP_PERIOD: real := 60.0

  const AUTH_PATHS := {"/v1/auth/login", "/v1/auth/refresh"}
  const EXEMPT_PREFIXES := ["/health", "/ready", "/docs", "/redoc", "/openapi.json", "/dashboard"]
  const WRITE_VERBS := {"POST", "PUT", "PATCH", "DELETE"}

  datatype Request = Request(ip: string, path: string, verb: string)

  /** Authentication paths are limited per address and path, everything else per address. */
  datatype Key = IpKey(ip: string) | AuthKey(ip: string, path: string)

  predicate StartsWithAny(path: string, prefixes: seq<string>) {
    prefixes != [] && (prefixes[0] <= path || StartsWithAny(path, prefixes[1..]))
  }

  predicate Exempt(path: string) {
    StartsWithAny(path, EXEMPT_PREFIXES)
  }

  function KeyOf(request: Request): Key {
    if request.path in AUTH_PATHS then AuthKey(request.ip, request.path) else IpKey(request.ip)
  }

  function LimitOf(request: Request): (limit: nat)
    ensures 0 < limit <= DEFAULT_RATE
    ensures KeyOf(request).AuthKey? ==> limit == AUTH_RATE
    ensures KeyOf(request).IpKey? ==> limit == if request.verb in WRITE_VERBS then BURST_RATE else DEFAULT_RATE
  {
    if request.path in AUTH_PATHS then AUTH_RATE
    else if request.verb in WRITE_VERBS then BURST_RATE
    else DEFAULT_RATE
  }

  datatype Decision =
    | Passed
    | Admitted(limit: nat, remaining: nat)
    | Rejected(limit: nat, retryAfter: int)

  // ---- The limiter that never forgets ----

  datatype Admission = Admission(time: real, limit: nat)

  type History = map<Key, seq<Admission>>

  function Past(history: History, key: Key): seq<Admission> {
    if key in history then history[key] else []
  }

  function Times(past: seq<Admission>): (ts: seq<real>)
    ensures |ts| == |past| && forall i :: 0 <= i < |past| ==> ts[i] == past[i].time
  {
    seq(|past|, i requires 0 <= i < |past| => past[i].time)
  }

  /** The timestamps strictly after the cutoff. */
  function Keep(ts: seq<real>, cutoff: real): (kept: seq<real>)
    ensures |kept| <= |ts|
  {
    if ts == [] then []
    else
      var last := |ts| - 1;
      if ts[last] > cutoff then Keep(ts[..last], cutoff) + [ts[last]] else Keep(ts[..last], cutoff)
  }

  lemma {:induction false} KeptAreRecent(ts: seq<real>, cutoff: real)
    ensures forall i :: 0 <= i < |Keep(ts, cutoff)| ==> Keep(ts, cutoff)[i] > cutoff
  {
    if ts != [] {
      KeptAreRecent(ts[..|ts| - 1], cutoff);
    }
  }

  function RetryAfter(recent: seq<real>, now: real): int
    requires recent != []
  {
    (WINDOW - (now - recent[0])).Floor + 1
  }

  function Decide(recent: seq<real>, limit: nat, now: real): Decision
    requires limit > 0
  {
    if |recent| >= limit then Rejected(limit, RetryAfter(recent, now)) else Admitted(limit, limit - |recent| - 1)
  }

  function Judge(history: History, request: Request, now: real): Decision {
    if Exempt(request.path) then Passed
    else Decide(Keep(Times(Past(history, KeyOf(request))), now - WINDOW), LimitOf(request), now)
  }

  /** An admission is remembered forever; a rejection leaves no trace. */
  function Admit(history: History, key: Key, limit: nat, now: real): History {
    if |Keep(Times(Past(history, key)), now - WINDOW)| < limit
    then history[key := Past(history, key) + [Admission(now, limit)]]
    else history
  }

  function Record(history: History, request: Request, now: real): History {
    if Exempt(request.path) then history else Admit(history, KeyOf(request), LimitOf(request), now)
  }

  datatype Arrival = Arrival(request: Request, now: real)

  function Run(arrivals: seq<Arrival>): History {
    if arrivals == [] then map[]
    else
      var last := arrivals[|arrivals| - 1];
      Record(Run(arrivals[..|arrivals| - 1]), last.request, last.now)
  }

  // ---- What a decision depends on, in terms of requests ----

  /** The same client and the same kind of path: requests that share one allowance. */
  predicate SharesAllowance(a: Request, b: Request) {
    a.ip == b.ip && (a.path in AUTH_PATHS || b.path in AUTH_PATHS ==> a.path == b.path)
  }

  /** The times at which the run admitted requests that share the allowance of the given one. */
  function Admissions(arrivals: seq<Arrival>, request: Request): seq<real> {
    if arrivals == [] then []
    else
      var init, last := arrivals[..|arrivals| - 1], arrivals[|arrivals| - 1];
      if SharesAllowance(last.request, request) && Judge(Run(init), last.request, last.now).Admitted?
      then Admissions(init, request) + [last.now]
      else Admissions(init, request)
  }

  lemma RecordAppends(history: History, last: Arrival, request: Request)
    ensures Times(Past(Record(history, last.request, last.now), KeyOf(request)))
         == Times(Past(history, KeyOf(request)))
            + if SharesAllowance(last.request, request) && Judge(history, last.request, last.now).Admitted? then [last.now] else []
  {
    assert SharesAllowance(last.request, request) <==> KeyOf(last.request) == KeyOf(request);
  }

  lemma {:induction false} PastIsOwnAdmissions(arrivals: seq<Arrival>, request: Request)
    ensures Times(Past(Run(arrivals), KeyOf(request))) == Admissions(arrivals, request)
  {
    if arrivals != [] {
      var init, last := arrivals[..|arrivals| - 1], arrivals[|arrivals| - 1];
      PastIsOwnAdmissions(init, request);
      RecordAppends(Run(init), last, request);
    }
  }

  lemma {:induction false} StartsWithAnyIff(path: string, prefixes: seq<string>)
    ensures StartsWithAny(path, prefixes) <==> exists i :: 0 <= i < |prefixes| && prefixes[i] <= path
  {
    if prefixes != [] {
      StartsWithAnyIff(path, prefixes[1..]);
      assert forall i :: 0 < i < |prefixes| ==> prefixes[i] == prefixes[1..][i - 1];
    }
  }

  /** Requests under the six exempt prefixes always pass and leave no trace; all others are decided. */
  lemma ExemptPasses(history: History, request: Request, now: real)
    ensures Judge(history, request, now) == Passed
       <==> || "/health" <= request.path || "/ready" <= request.path || "/docs" <= request.path
            || "/redoc" <= request.path || "/openapi.json" <= request.path || "/dashboard" <= request.path
    ensures Judge(history, request, now) == Passed ==> Record(history, request, now) == history
  {
    StartsWithAnyIff(request.path, EXEMPT_PREFIXES);
    assert EXEMPT_PREFIXES[0] == "/health" && EXEMPT_PREFIXES[1] == "/ready" && EXEMPT_PREFIXES[2] == "/docs";
    assert EXEMPT_PREFIXES[3] == "/redoc" && EXEMPT_PREFIXES[4] == "/openapi.json" && EXEMPT_PREFIXES[5] == "/dashboard";
  }

  /** Ten a minute for logging in and refreshing, sixty for other writes, two hundred for everything else. */
  function Allowance(request: Request): nat {
    if request.path == "/v1/auth/login" || request.path == "/v1/auth/refresh" then 10
    else if request.verb == "POST" || request.verb == "PUT" || request.verb == "PATCH" || request.verb == "DELETE" then 60
    else 200
  }

  /**
   * In every run a request that is not exempt is decided by the admissions of the last 60 seconds that share its
   * allowance, those of its own address and, on an authentication path, of that path, and by nothing else.
   */
  lemma DecidedByOwnAdmissions(arrivals: seq<Arrival>, request: Request, now: real)
    ensures Judge(Run(arrivals), request, now) != Passed ==>
      Judge(Run(arrivals), request, now) == Decide(Keep(Admissions(arrivals, request), now - 60.0), Allowance(request), now)
  {
    PastIsOwnAdmissions(arrivals, request);
    assert LimitOf(request) == Allowance(request);
  }

  /** The arrivals that share the allowance of a request. */
  function Mine(arrivals: seq<Arrival>, request: Request): seq<Arrival> {
    if arrivals == [] then []
    else
      var init, last := arrivals[..|arrivals| - 1], arrivals[|arrivals| - 1];
      if SharesAllowance(last.request, request) then Mine(init, request) + [last] else Mine(init, request)
  }

  lemma {:induction false} OthersLeaveNoTrace(arrivals: seq<Arrival>, request: Request)
    ensures Past(Run(arrivals), KeyOf(request)) == Past(Run(Mine(arrivals, request)), KeyOf(request))
  {
    if arrivals != [] {
      var init, last := arrivals[..|arrivals| - 1], arrivals[|arrivals| - 1];
      OthersLeaveNoTrace(init, request);
      assert SharesAllowance(last.request, request) <==> KeyOf(last.request) == KeyOf(request);
      if SharesAllowance(last.request, request) {
        assert Mine(arrivals, request)[..|Mine(init, request)|] == Mine(init, request);
        assert Run(Mine(arrivals, request)) == Record(Run(Mine(init, request)), last.request, last.now);
      }
    }
  }

  /** No client spends the allowance of another, nor one kind of path that of another: their arrivals could as well be missing. */
  lemma AllowancesAreIsolated(arrivals: seq<Arrival>, request: Request, now: real)
    ensures Judge(Run(arrivals), request, now) == Judge(Run(Mine(arrivals, request)), request, now)
  {
    OthersLeaveNoTrace(arrivals, request);
  }

  /** An address that has not been seen is never rejected, however busy the others were. */
  lemma {:induction false} NewcomerIsNotRejected(arrivals: seq<Arrival>, request: Request, now: real)
    requires forall i :: 0 <= i < |arrivals| ==> arrivals[i].request.ip != request.ip
    ensures Admissions(arrivals, request) == []
    ensures !Judge(Run(arrivals), request, now).Rejected?
  {
    if arrivals != [] {
      NewcomerIsNotRejected(arrivals[..|arrivals| - 1], request, now);
    }
    DecidedByOwnAdmissions(arrivals, request, now);
  }

  // ---- Window bounds ----

  /** Each admission found fewer recent ones than the limit it was admitted under. */
  ghost predicate Disciplined(past: seq<Admission>) {
    past != [] ==>
      var init, a := past[..|past| - 1], past[|past| - 1];
      |Keep(Times(init), a.time - WINDOW)| < a.limit && Disciplined(init)
  }

  ghost predicate LimitsFit(key: Key, past: seq<Admission>) {
    forall i :: 0 <= i < |past| ==>
      if key.AuthKey? then past[i].limit == AUTH_RATE else past[i].limit == BURST_RATE || past[i].limit == DEFAULT_RATE
  }

  ghost predicate SoundAt(key: Key, past: seq<Admission>) {
    Disciplined(past) && LimitsFit(key, past)
  }

  ghost predicate Sound(history: History) {
    forall key :: SoundAt(key, Past(history, key))
  }

  /** How many admissions under a limit of at most the given one fall in the window (start, start + 60]. */
  function InWindow(past: seq<Admission>, start: real, limit: nat): nat {
    if past == [] then 0
    else
      var a := past[|past| - 1];
      InWindow(past[..|past| - 1], start, limit)
      + (if start < a.time <= start + WINDOW && a.limit <= limit then 1 else 0)
  }

  lemma TimesOfInit(past: seq<Admission>)
    requires past != []
    ensures Times(past)[..|past| - 1] == Times(past[..|past| - 1])
  {
  }

  lemma {:induction false} WindowWithinRecent(past: seq<Admission>, start: real, limit: nat, cutoff: real)
    requires cutoff <= start
    ensures InWindow(past, start, limit) <= |Keep(Times(past), cutoff)|
  {
    if past != [] {
      TimesOfInit(past);
      WindowWithinRecent(past[..|past| - 1], start, limit, cutoff);
    }
  }

  /** No 60-second window holds more admissions under limits up to L than L, whatever other limits share the key. */
  lemma {:induction false} WindowBound(past: seq<Admission>, start: real, limit: nat)
    requires Disciplined(past)
    ensures InWindow(past, start, limit) <= limit
  {
    if past != [] {
      var init, a := past[..|past| - 1], past[|past| - 1];
      WindowBound(init, start, limit);
      if start < a.time <= start + WINDOW && a.limit <= limit {
        WindowWithinRecent(init, start, limit, a.time - WINDOW);
      }
    }
  }

  lemma ExtendSound(key: Key, past: seq<Admission>, a: Admission)
    requires SoundAt(key, past) && |Keep(Times(past), a.time - WINDOW)| < a.limit
    requires if key.AuthKey? then a.limit == AUTH_RATE else a.limit == BURST_RATE || a.limit == DEFAULT_RATE
    ensures SoundAt(key, past + [a])
  {
  }

  lemma AdmitKeepsSound(history: History, key: Key, limit: nat, now: real)
    requires Sound(history)
    requires if key.AuthKey? then limit == AUTH_RATE else limit == BURST_RATE || limit == DEFAULT_RATE
    ensures Sound(Admit(history, key, limit, now))
  {
    var after := Admit(history, key, limit, now);
    forall k: Key ensures SoundAt(k, Past(after, k)) {
      assert SoundAt(k, Past(history, k));
      if k == key && |Keep(Times(Past(history, key)), now - WINDOW)| < limit {
        ExtendSound(key, Past(history, key), Admission(now, limit));
      }
    }
  }

  lemma {:induction false} RunIsSound(arrivals: seq<Arrival>)
    ensures Sound(Run(arrivals))
  {
    if arrivals != [] {
      var last := arrivals[|arrivals| - 1];
      RunIsSound(arrivals[..|arrivals| - 1]);
      AdmitKeepsSound(Run(arrivals[..|arrivals| - 1]), KeyOf(last.request), LimitOf(last.request), last.now);
    }
  }

  /**
   * In every run and every window: at most 10 admissions on an authentication key; at most 200 on an address, of which
   * at most 60 are writes, although reads and writes share one list.
   */
  lemma EveryWindowIsBounded(arrivals: seq<Arrival>, key: Key, start: real)
    ensures var past := Past(Run(arrivals), key);
      && LimitsFit(key, past)
      && (key.AuthKey? ==> InWindow(past, start, AUTH_RATE) <= 10)
      && (key.IpKey? ==> InWindow(past, start, DEFAULT_RATE) <= 200 && InWindow(past, start, BURST_RATE) <= 60)
  {
    RunIsSound(arrivals);
    var past := Past(Run(arrivals), key);
    assert SoundAt(key, past);
    WindowBound(past, start, AUTH_RATE);
    WindowBound(past, start, BURST_RATE);
    WindowBound(past, start, DEFAULT_RATE);
  }

  // ---- Retry-After ----

  ghost predicate Sorted(ts: seq<real>) {
    forall i, j :: 0 <= i < j < |ts| ==> ts[i] <= ts[j]
  }

  lemma {:induction false} KeepNone(ts: seq<real>, cutoff: real)
    requires forall i :: 0 <= i < |ts| ==> ts[i] <= cutoff
    ensures Keep(ts, cutoff) == []
  {
    if ts != [] {
      KeepNone(ts[..|ts| - 1], cutoff);
    }
  }

  lemma {:induction false} KeepSuffix(ts: seq<real>, cutoff: real, k: nat)
    requires k <= |ts| && (forall i :: 0 <= i < k ==> ts[i] <= cutoff) && (forall i :: k <= i < |ts| ==> ts[i] > cutoff)
    ensures Keep(ts, cutoff) == ts[k..]
  {
    if k == |ts| {
      KeepNone(ts, cutoff);
    } else {
      var init := ts[..|ts| - 1];
      KeepSuffix(init, cutoff, k);
      assert ts[k..] == init[k..] + [ts[|ts| - 1]];
    }
  }

  lemma {:induction false} SplitPoint(ts: seq<real>, cutoff: real) returns (k: nat)
    requires Sorted(ts)
    ensures k <= |ts| && (forall i :: 0 <= i < k ==> ts[i] <= cutoff) && (forall i :: k <= i < |ts| ==> ts[i] > cutoff)
  {
    k := |ts|;
    if ts != [] && ts[|ts| - 1] > cutoff {
      k := SplitPoint(ts[..|ts| - 1], cutoff);
    }
  }

  /** On a sorted list, keeping is dropping a prefix. */
  lemma KeepDropsPrefix(ts: seq<real>, cutoff: real) returns (k: nat)
    requires Sorted(ts)
    ensures k <= |ts| && Keep(ts, cutoff) == ts[k..]
    ensures forall i :: 0 <= i < k ==> ts[i] <= cutoff
    ensures forall i :: k <= i < |ts| ==> ts[i] > cutoff
  {
    k := SplitPoint(ts, cutoff);
    KeepSuffix(ts, cutoff, k);
  }

  /** With no further admissions, a rejected request becomes admissible exactly when its limit-th newest admission expires. */
  lemma AdmissibleIff(ts: seq<real>, limit: nat, now: real, later: real)
    requires Sorted(ts) && now <= later
    requires 0 < limit <= |Keep(ts, now - WINDOW)|
    ensures var recent := Keep(ts, now - WINDOW);
      |Keep(ts, later - WINDOW)| < limit <==> later >= recent[|recent| - limit] + WINDOW
  {
    var k := KeepDropsPrefix(ts, now - WINDOW);
    var m := KeepDropsPrefix(ts, later - WINDOW);
    assert ts[k..][|ts| - k - limit] == ts[|ts| - limit];
  }

  lemma RetryAfterBounds(recent: seq<real>, now: real)
    requires recent != []
    ensures recent[0] + WINDOW < now + RetryAfter(recent, now) as real <= recent[0] + WINDOW + 1.0
  {
  }

  lemma {:induction false} RecentIsWindow(past: seq<Admission>, now: real)
    requires forall i :: 0 <= i < |past| ==> past[i].time <= now && past[i].limit <= AUTH_RATE
    ensures InWindow(past, now - WINDOW, AUTH_RATE) == |Keep(Times(past), now - WINDOW)|
  {
    if past != [] {
      TimesOfInit(past);
      RecentIsWindow(past[..|past| - 1], now);
    }
  }

  // ---- Reachable histories ----

  /** The clock never goes back and has not passed the given instant. */
  ghost predicate Clocked(arrivals: seq<Arrival>, now: real) {
    && (forall i, j :: 0 <= i < j < |arrivals| ==> arrivals[i].now <= arrivals[j].now)
    && (forall i :: 0 <= i < |arrivals| ==> arrivals[i].now <= now)
  }

  ghost predicate Timely(past: seq<Admission>, now: real) {
    Sorted(Times(past)) && forall i :: 0 <= i < |past| ==> past[i].time <= now
  }

  lemma AdmitKeepsTimely(history: History, admitted: Key, limit: nat, now: real, key: Key)
    requires Timely(Past(history, key), now)
    ensures Timely(Past(Admit(history, admitted, limit, now), key), now)
  {
    var past := Past(history, key);
    assert Times(past + [Admission(now, limit)]) == Times(past) + [now];
  }

  lemma {:induction false} RunIsTimely(arrivals: seq<Arrival>, key: Key, now: real)
    requires Clocked(arrivals, now)
    ensures Timely(Past(Run(arrivals), key), now)
  {
    if arrivals != [] {
      var init, last := arrivals[..|arrivals| - 1], arrivals[|arrivals| - 1];
      RunIsTimely(init, key, last.now);
      AdmitKeepsTimely(Run(init), KeyOf(last.request), LimitOf(last.request), last.now, key);
    }
  }

  lemma AuthSeesExactlyTen(past: seq<Admission>, key: Key, now: real)
    requires key.AuthKey? && SoundAt(key, past) && Timely(past, now)
    requires |Keep(Times(past), now - WINDOW)| >= AUTH_RATE
    ensures |Keep(Times(past), now - WINDOW)| == AUTH_RATE
  {
    RecentIsWindow(past, now);
    WindowBound(past, now - WINDOW, AUTH_RATE);
  }

  /** The same question on one list and one limit. */
  lemma RetryOnPast(past: seq<Admission>, limit: nat, now: real)
    requires limit > 0 && Sorted(Times(past)) && |Keep(Times(past), now - WINDOW)| >= limit
    ensures var recent := Keep(Times(past), now - WINDOW);
      var later := now + RetryAfter(recent, now) as real;
      && (|Keep(Times(past), later - WINDOW)| < limit <==> recent[|recent| - limit] + WINDOW <= later)
      && recent[0] + WINDOW <= later
  {
    var recent := Keep(Times(past), now - WINDOW);
    RetryAfterBounds(recent, now);
    KeptAreRecent(Times(past), now - WINDOW);
    AdmissibleIff(Times(past), limit, now, now + RetryAfter(recent, now) as real);
  }

  function Recent(history: History, request: Request, now: real): seq<real> {
    Keep(Times(Past(history, KeyOf(request))), now - WINDOW)
  }

  /** The same for an authentication key: ten recent admissions, and the oldest decides. */
  lemma AuthOnPast(past: seq<Admission>, key: Key, now: real, later: real)
    requires key.AuthKey? && SoundAt(key, past) && Timely(past, now) && now <= later
    requires |Keep(Times(past), now - WINDOW)| >= AUTH_RATE
    ensures var recent := Keep(Times(past), now - WINDOW);
      && |recent| == AUTH_RATE
      && recent[0] + WINDOW < now + RetryAfter(recent, now) as real <= recent[0] + WINDOW + 1.0
      && (|Keep(Times(past), later - WINDOW)| < AUTH_RATE <==> later >= recent[0] + WINDOW)
  {
    AuthSeesExactlyTen(past, key, now);
    RetryAfterBounds(Keep(Times(past), now - WINDOW), now);
    AdmissibleIff(Times(past), AUTH_RATE, now, later);
  }

  lemma VerdictIsDecided(history: History, request: Request, now: real)
    requires Judge(history, request, now).Rejected?
    ensures !Exempt(request.path)
    ensures |Recent(history, request, now)| >= LimitOf(request)
    ensures Judge(history, request, now).retryAfter == RetryAfter(Recent(history, request, now), now)
  {
  }

  lemma AdmittedIff(history: History, request: Request, now: real)
    requires !Exempt(request.path)
    ensures Judge(history, request, now).Admitted? <==> |Recent(history, request, now)| < LimitOf(request)
  {
  }

  /**
   * After any run, a rejected authentication request sees exactly 10 recent admissions. With no further admission on its
   * key it becomes admissible at the instant the oldest of them expires, and Retry-After overshoots that instant by at
   * most a second.
   */
  lemma AuthRetryAfterIsTight(arrivals: seq<Arrival>, request: Request, now: real, next: History, later: real)
    requires Clocked(arrivals, now) && now <= later
    requires KeyOf(request).AuthKey? && Judge(Run(arrivals), request, now).Rejected?
    requires Past(next, KeyOf(request)) == Past(Run(arrivals), KeyOf(request))
    ensures var recent := Recent(Run(arrivals), request, now);
      && |recent| == 10
      && recent[0] + WINDOW < now + Judge(Run(arrivals), request, now).retryAfter as real <= recent[0] + WINDOW + 1.0
      && (Judge(next, request, later).Admitted? <==> later >= recent[0] + WINDOW)
  {
    VerdictIsDecided(Run(arrivals), request, now);
    AdmittedIff(next, request, later);
    RunIsSound(arrivals);
    assert SoundAt(KeyOf(request), Past(Run(arrivals), KeyOf(request)));
    RunIsTimely(arrivals, KeyOf(request), now);
    AuthOnPast(Past(Run(arrivals), KeyOf(request)), KeyOf(request), now, later);
  }

  /**
   * On any key Retry-After looks at the oldest recent admission, but what matters is the limit-th newest: after any run,
   * waiting as told with no further admission suffices exactly when that one expires within the announced delay.
   */
  lemma RetryAfterSufficesIff(arrivals: seq<Arrival>, request: Request, now: real, next: History)
    requires Clocked(arrivals, now) && Judge(Run(arrivals), request, now).Rejected?
    requires Past(next, KeyOf(request)) == Past(Run(arrivals), KeyOf(request))
    ensures var recent := Recent(Run(arrivals), request, now);
      var later := now + Judge(Run(arrivals), request, now).retryAfter as real;
      && |recent| >= LimitOf(request)
      && (Judge(next, request, later).Admitted? <==> recent[|recent| - LimitOf(request)] + WINDOW <= later)
      && (|recent| == LimitOf(request) ==> Judge(next, request, later).Admitted?)
  {
    VerdictIsDecided(Run(arrivals), request, now);
    AdmittedIff(next, request, now + Judge(Run(arrivals), request, now).retryAfter as real);
    RunIsTimely(arrivals, KeyOf(request), now);
    RetryOnPast(Past(Run(arrivals), KeyOf(request)), LimitOf(request), now);
  }

  lemma {:induction false} KeepAll(ts: seq<real>, cutoff: real)
    requires forall i :: 0 <= i < |ts| ==> ts[i] > cutoff
    ensures Keep(ts, cutoff) == ts
  {
    if ts != [] {
      KeepAll(ts[..|ts| - 1], cutoff);
    }
  }

  const READ := Request("a", "/v1/chat", "GET")
  const WRITE := Request("a", "/v1/chat", "POST")

  lemma ReadAndWriteShareAKey()
    ensures !Exempt(READ.path) && KeyOf(READ) == KeyOf(WRITE) == IpKey("a")
    ensures LimitOf(READ) == DEFAULT_RATE && LimitOf(WRITE) == BURST_RATE
  {
    forall i | 0 <= i < |EXEMPT_PREFIXES| ensures !(EXEMPT_PREFIXES[i] <= READ.path) {
      assert EXEMPT_PREFIXES[i][1] != 'v';
    }
    StartsWithAnyIff(READ.path, EXEMPT_PREFIXES);
    assert |READ.path| == 8;
  }

  /** One read at time 0 and the others at time 10, all from one address. */
  function Reads(n: nat): (arrivals: seq<Arrival>)
    ensures |arrivals| == n
  {
    seq(n, i => Arrival(READ, if i == 0 then 0.0 else 10.0))
  }

  function ReadsAdmitted(n: nat): (past: seq<Admission>)
    ensures |past| == n
  {
    seq(n, i => Admission(if i == 0 then 0.0 else 10.0, DEFAULT_RATE))
  }

  lemma OneMoreRead(history: History, n: nat, now: real)
    requires n < DEFAULT_RATE && Past(history, IpKey("a")) == ReadsAdmitted(n)
    ensures Past(Record(history, READ, now), IpKey("a")) == ReadsAdmitted(n) + [Admission(now, DEFAULT_RATE)]
  {
    ReadAndWriteShareAKey();
  }

  lemma {:induction false} ReadsAreAdmitted(n: nat)
    requires n <= DEFAULT_RATE
    ensures Past(Run(Reads(n)), IpKey("a")) == ReadsAdmitted(n)
  {
    if n > 0 {
      assert Reads(n)[..n - 1] == Reads(n - 1);
      ReadsAreAdmitted(n - 1);
      OneMoreRead(Run(Reads(n - 1)), n - 1, Reads(n)[n - 1].now);
      assert Run(Reads(n)) == Record(Run(Reads(n - 1)), READ, Reads(n)[n - 1].now);
      assert ReadsAdmitted(n) == ReadsAdmitted(n - 1) + [Admission(Reads(n)[n - 1].now, DEFAULT_RATE)];
    }
  }

  ghost predicate LateReads(ts: seq<real>) {
    |ts| > BURST_RATE && ts[0] == 0.0 && forall i :: 1 <= i < |ts| ==> ts[i] == 10.0
  }

  lemma RejectedAtTen(ts: seq<real>)
    requires LateReads(ts)
    ensures Decide(Keep(ts, 10.0 - WINDOW), BURST_RATE, 10.0) == Rejected(BURST_RATE, 51)
  {
    KeepAll(ts, 10.0 - WINDOW);
  }

  lemma RejectedAtSixtyOne(ts: seq<real>)
    requires LateReads(ts)
    ensures Decide(Keep(ts, 61.0 - WINDOW), BURST_RATE, 61.0) == Rejected(BURST_RATE, 10)
  {
    var k := KeepDropsPrefix(ts, 61.0 - WINDOW);
    assert ts[1] == 10.0;
    assert k == 1;
  }

  lemma WriteBehindReads(n: nat, now: real)
    requires n <= DEFAULT_RATE
    ensures Judge(Run(Reads(n)), WRITE, now) == Decide(Keep(Times(ReadsAdmitted(n)), now - WINDOW), BURST_RATE, now)
  {
    ReadsAreAdmitted(n);
    ReadAndWriteShareAKey();
  }

  lemma ReadTimesAreLate(n: nat)
    requires n > BURST_RATE
    ensures LateReads(Times(ReadsAdmitted(n)))
  {
  }

  lemma WriteRejected(n: nat, now: real, retry: int)
    requires n <= DEFAULT_RATE
    requires Decide(Keep(Times(ReadsAdmitted(n)), now - WINDOW), BURST_RATE, now) == Rejected(BURST_RATE, retry)
    ensures Judge(Run(Reads(n)), WRITE, now) == Rejected(BURST_RATE, retry)
  {
    WriteBehindReads(n, now);
  }

  lemma FirstWriteRejected(n: nat)
    requires BURST_RATE < n <= DEFAULT_RATE
    ensures Judge(Run(Reads(n)), WRITE, 10.0) == Rejected(BURST_RATE, 51)
  {
    ReadTimesAreLate(n);
    RejectedAtTen(Times(ReadsAdmitted(n)));
    WriteRejected(n, 10.0, 51);
  }

  lemma SecondWriteRejected(n: nat)
    requires BURST_RATE < n <= DEFAULT_RATE
    ensures Judge(Run(Reads(n)), WRITE, 61.0) == Rejected(BURST_RATE, 10)
  {
    ReadTimesAreLate(n);
    RejectedAtSixtyOne(Times(ReadsAdmitted(n)));
    WriteRejected(n, 61.0, 10);
  }

  /** Behind 61 or more such reads a write at time 10 is told to wait 51 seconds, and is rejected again after them. */
  lemma RetryAfterCanBeTooShort(n: nat)
    requires BURST_RATE < n <= DEFAULT_RATE
    ensures Clocked(Reads(n), 10.0)
    ensures Judge(Run(Reads(n)), WRITE, 10.0) == Rejected(BURST_RATE, 51)
    ensures Judge(Run(Reads(n)), WRITE, 61.0) == Rejected(BURST_RATE, 10)
  {
    FirstWriteRejected(n);
    SecondWriteRejected(n);
  }

  // ---- The middleware ----

  /** The stored list is what remains of the history after dropping a prefix that has left every later window. */
  ghost predicate Remains(stored: seq<real>, past: seq<Admission>, clock: real) {
    && |stored| <= |past|
    && (forall i :: 0 <= i < |past| - |stored| ==> past[i].time <= clock - WINDOW)
    && stored == Times(past)[|past| - |stored|..]
  }

  lemma {:induction false} KeepIgnoresExpired(ts: seq<real>, k: nat, cutoff: real)
    requires k <= |ts| && forall i :: 0 <= i < k ==> ts[i] <= cutoff
    ensures Keep(ts[k..], cutoff) == Keep(ts, cutoff)
  {
    if k < |ts| {
      var last := |ts| - 1;
      assert ts[k..][..last - k] == ts[..last][k..];
      KeepIgnoresExpired(ts[..last], k, cutoff);
    } else if k > 0 {
      var last := |ts| - 1;
      assert ts[..last][last..] == [];
      KeepIgnoresExpired(ts[..last], last, cutoff);
    }
  }

  /** Filtering the stored list gives the same recent timestamps as filtering the whole history, and stays a remainder. */
  lemma PruningIsUnobservable(stored: seq<real>, past: seq<Admission>, clock: real, now: real)
    requires Remains(stored, past, clock) && Sorted(Times(past)) && clock <= now
    ensures Keep(stored, now - WINDOW) == Keep(Times(past), now - WINDOW)
    ensures Remains(Keep(stored, now - WINDOW), past, now)
  {
    var ts, cutoff := Times(past), now - WINDOW;
    KeepIgnoresExpired(ts, |past| - |stored|, cutoff);
    var k := KeepDropsPrefix(ts, cutoff);
    assert |past| - |ts[k..]| == k;
    assert forall i :: 0 <= i < k ==> past[i].time == ts[i];
  }

  function Stored(requests: map<Key, seq<real>>, key: Key): seq<real> {
    if key in requests then requests[key] else []
  }

  ghost predicate Fits(stored: seq<real>, past: seq<Admission>, clock: real) {
    && Remains(stored, past, clock)
    && Sorted(Times(past))
    && forall i :: 0 <= i < |past| ==> past[i].time <= clock
  }

  ghost predicate AgreesAt(requests: map<Key, seq<real>>, history: History, clock: real, key: Key) {
    Fits(Stored(requests, key), Past(history, key), clock)
  }

  ghost predicate Agrees(requests: map<Key, seq<real>>, history: History, clock: real) {
    forall key :: AgreesAt(requests, history, clock, key)
  }

  /** The lists left by a clean-up: filtered, and without the empty ones. */
  function Cleaned(requests: map<Key, seq<real>>, cutoff: real): map<Key, seq<real>> {
    map key | key in requests && Keep(requests[key], cutoff) != [] :: Keep(requests[key], cutoff)
  }

  lemma CleanupAgrees(requests: map<Key, seq<real>>, history: History, clock: real, now: real)
    requires Agrees(requests, history, clock) && clock <= now
    ensures Agrees(requests, history, now)
    ensures Agrees(Cleaned(requests, now - WINDOW), history, now)
  {
    var cleaned := Cleaned(requests, now - WINDOW);
    forall key: Key ensures AgreesAt(requests, history, now, key) && AgreesAt(cleaned, history, now, key) {
      assert AgreesAt(requests, history, clock, key);
      PruningIsUnobservable(Stored(requests, key), Past(history, key), clock, now);
      assert Stored(cleaned, key) == Keep(Stored(requests, key), now - WINDOW);
    }
  }

  lemma PrunedKeyAgrees(requests: map<Key, seq<real>>, history: History, now: real, key: Key)
    requires Agrees(requests, history, now)
    ensures Keep(Stored(requests, key), now - WINDOW) == Keep(Times(Past(history, key)), now - WINDOW)
    ensures Agrees(requests[key := Keep(Stored(requests, key), now - WINDOW)], history, now)
  {
    var pruned := requests[key := Keep(Stored(requests, key), now - WINDOW)];
    assert AgreesAt(requests, history, now, key);
    PruningIsUnobservable(Stored(requests, key), Past(history, key), now, now);
    assert Fits(Stored(pruned, key), Past(history, key), now);
    forall k: Key ensures AgreesAt(pruned, history, now, k) {
      assert AgreesAt(requests, history, now, k);
      assert k != key ==> Stored(pruned, k) == Stored(requests, k);
    }
  }

  lemma AppendFits(stored: seq<real>, past: seq<Admission>, now: real, limit: nat)
    requires Fits(stored, past, now)
    ensures Fits(stored + [now], past + [Admission(now, limit)], now)
  {
  }

  lemma AppendedKeyAgrees(requests: map<Key, seq<real>>, history: History, now: real, key: Key, limit: nat)
    requires Agrees(requests, history, now)
    ensures Agrees(requests[key := Stored(requests, key) + [now]],
                   history[key := Past(history, key) + [Admission(now, limit)]], now)
  {
    assert AgreesAt(requests, history, now, key);
    AppendFits(Stored(requests, key), Past(history, key), now, limit);
    var requests', history' := requests[key := Stored(requests, key) + [now]],
                               history[key := Past(history, key) + [Admission(now, limit)]];
    forall k: Key ensures AgreesAt(requests', history', now, k) {
      assert AgreesAt(requests, history, now, k);
      assert k != key ==> Stored(requests', k) == Stored(requests, k) && Past(history', k) == Past(history, k);
    }
  }

  class RateLimiter {
    var requests: map<Key, seq<real>>
    var lastCleanup: real

    ghost var history: History
    ghost var clock: real

    ghost predicate Valid()
      reads this
    {
      Agrees(requests, history, clock)
    }

    constructor (now: real)
      ensures Valid() && history == map[] && clock == now && lastCleanup == now
    {
      requests, lastCleanup := map[], now;
      history, clock := map[], now;
    }

    /** At most once a minute, drop expired timestamps everywhere and forget the keys left empty. */
    method CleanupOldEntries(now: real)
      requires Valid() && clock <= now
      modifies this
      ensures Valid() && clock == now && history == old(history)
      ensures var due := now - old(lastCleanup) >= CLEANUP_PERIOD;
        && lastCleanup == (if due then now else old(lastCleanup))
        && requests == if due then Cleaned(old(requests), now - WINDOW) else old(requests)
    {
      CleanupAgrees(requests, history, clock, now);
      clock := now;
      if now - lastCleanup < CLEANUP_PERIOD {
        return;
      }
      lastCleanup := now;
      var cutoff := now - WINDOW;
      var expired: set<Key> := {};
      var todo := requests.Keys;
      ghost var before := requests;
      while todo != {}
        invariant todo <= requests.Keys == before.Keys
        invariant forall key :: key in todo ==> requests[key] == before[key]
        invariant forall key :: key in requests && key !in todo ==> requests[key] == Keep(before[key], cutoff)
        invariant forall key :: key in expired <==> key in requests && key !in todo && requests[key] == []
        modifies `requests
      {
        var key :| key in todo;
        requests := requests[key := Keep(requests[key], cutoff)];
        if requests[key] == [] {
          expired := expired + {key};
        }
        todo := todo - {key};
      }
      requests := requests - expired;
      assert requests == Cleaned(before, cutoff);
    }

    /** Every decision is the one of the limiter that never forgets, whether or not the clean-up ran. */
    method Dispatch(request: Request, now: real) returns (decision: Decision)
      requires Valid() && clock <= now
      modifies this
      ensures Valid() && clock == now
      ensures decision == Judge(old(history), request, now)
      ensures history == Record(old(history), request, now)
    {
      if Exempt(request.path) {
        CleanupAgrees(requests, history, clock, now);
        clock := now;
        return Passed;
      }
      CleanupOldEntries(now);
      var key := if request.path in AUTH_PATHS then AuthKey(request.ip, request.path) else IpKey(request.ip);
      decision := Serve(key, LimitOf(request), now);
    }

    method Serve(key: Key, limit: nat, now: real) returns (decision: Decision)
      requires Valid() && clock == now && limit > 0
      modifies this`requests, this`history
      ensures Valid()
      ensures decision == Decide(Keep(Times(Past(old(history), key)), now - WINDOW), limit, now)
      ensures history == Admit(old(history), key, limit, now)
    {
      PrunedKeyAgrees(requests, history, now, key);
      var recent := Keep(Stored(requests, key), now - WINDOW);
      requests := requests[key := recent];
      if |recent| >= limit {
        return Rejected(limit, (WINDOW - (now - recent[0])).Floor + 1);
      }
      AppendedKeyAgrees(requests, history, now, key, limit);
      requests := requests[key := requests[key] + [now]];
      history := history[key := Past(history, key) + [Admission(now, limit)]];
      return Admitted(limit, limit - |requests[key]|);
    }
  }
}

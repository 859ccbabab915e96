/** The per-identity fixed-window request counter of the description
    endpoint. The counter map is an immutable value; each call returns the
    verdict together with the map the next call sees. */
module RateLimiter {

  /** Length of one window in milliseconds: one hour. */
  const WINDOW_MS: nat := 60 * 60 * 1000
  /** Requests admitted per identity per window. */
  const MAX: nat := 20

  /** Requests counted in the current window, and the instant it opened. */
  datatype RateEntry = RateEntry(count: nat, firstTs: nat)

  type RateMap = map<string, RateEntry>

  /** `{ allowed, remaining }` as `rateLimit` returns it. */
  datatype Verdict = Verdict(allowed: bool, remaining: int)

  datatype RateStep = RateStep(verdict: Verdict, rates: RateMap)

  /** Every stored entry has counted at least one and at most `MAX` requests. */
  predicate ValidRates(m: RateMap) {
    forall ip :: ip in m ==> 1 <= m[ip].count <= MAX
  }

  /** The entry `rateLimit` starts from: the stored one, or an empty window
      opening now. */
  function EntryAt(m: RateMap, ip: string, now: nat): RateEntry {
    if ip in m then m[ip] else RateEntry(0, now)
  }

  /** The stored window of `ip` is over at `now`. */
  predicate Expired(m: RateMap, ip: string, now: nat) {
    ip in m && now - m[ip].firstTs > WINDOW_MS
  }

  /** `rateLimit(ip)` called at `now`. */
  function RateLimit(m: RateMap, ip: string, now: nat): (r: RateStep)
    // other identities are never touched, and `ip` always has an entry after
    ensures r.rates - {ip} == m - {ip}
    ensures ip in r.rates
    // the quota left is never negative
    ensures 0 <= r.verdict.remaining < MAX
    // an expired window restarts with this request as its first
    ensures Expired(m, ip, now) ==>
              r.verdict == Verdict(true, MAX - 1) && r.rates[ip] == RateEntry(1, now)
    // a first-ever request opens a window holding one request
    ensures ip !in m ==> r.verdict == Verdict(true, MAX - 1) && r.rates[ip] == RateEntry(1, now)
    // a full, live window refuses without touching the map
    ensures ip in m && !Expired(m, ip, now) && m[ip].count >= MAX ==>
              r.verdict == Verdict(false, 0) && r.rates == m
    // otherwise the request is counted in the same window
    ensures ip in m && !Expired(m, ip, now) && m[ip].count < MAX ==>
              r.verdict.allowed && r.rates[ip] == m[ip].(count := m[ip].count + 1)
    // an admitted request reports the quota its window has left
    ensures r.verdict.allowed ==> r.verdict.remaining == MAX - r.rates[ip].count
    ensures !r.verdict.allowed ==> r.rates == m && r.verdict.remaining == 0
    // counts stay within bounds
    ensures ValidRates(m) ==> ValidRates(r.rates)
  {
    var entry := EntryAt(m, ip, now);
    if now - entry.firstTs > WINDOW_MS then
      RateStep(Verdict(true, MAX - 1), m[ip := RateEntry(1, now)])
    else if entry.count >= MAX then
      RateStep(Verdict(false, 0), m)
    else
      var counted := entry.(count := entry.count + 1);
      RateStep(Verdict(true, MAX - counted.count), m[ip := counted])
  }

  // ---------------------------------------------------------------------------
  // Sequences of calls

  /** The verdicts of successive calls for one identity at the given instants. */
  function Verdicts(m: RateMap, ip: string, times: seq<nat>): (vs: seq<Verdict>)
    ensures |vs| == |times|
    decreases |times|
  {
    if times == [] then []
    else
      var step := RateLimit(m, ip, times[0]);
      [step.verdict] + Verdicts(step.rates, ip, times[1..])
  }

  /** How many of the verdicts admit their request. */
  function AdmittedCount(vs: seq<Verdict>): (n: nat)
    ensures n <= |vs|
  {
    if vs == [] then 0 else (if vs[0].allowed then 1 else 0) + AdmittedCount(vs[1..])
  }

  function Min(a: int, b: int): int {
    if a <= b then a else b
  }

  /** Inside the window an identity already has open, calls are admitted
      exactly while the window has room: the `i`-th call passes iff fewer
      than `MAX - count` calls came before it. */
  lemma {:induction false} OpenWindowAdmission(m: RateMap, ip: string, times: seq<nat>)
    requires ip in m
    requires forall i :: 0 <= i < |times| ==> times[i] - m[ip].firstTs <= WINDOW_MS
    ensures forall i :: 0 <= i < |times| ==>
              (Verdicts(m, ip, times)[i].allowed <==> i < MAX - m[ip].count)
    ensures AdmittedCount(Verdicts(m, ip, times)) == Min(|times|, if m[ip].count >= MAX then 0 else MAX - m[ip].count)
    decreases |times|
  {
    if times != [] {
      var step := RateLimit(m, ip, times[0]);
      var rest := times[1..];
      assert forall i :: 0 <= i < |rest| ==> rest[i] == times[i + 1];
      assert step.rates[ip].firstTs == m[ip].firstTs;
      OpenWindowAdmission(step.rates, ip, rest);
      var vs := Verdicts(m, ip, times);
      assert vs[1..] == Verdicts(step.rates, ip, rest);
      forall i | 0 <= i < |times|
        ensures vs[i].allowed <==> i < MAX - m[ip].count
      {
        if i > 0 {
          assert vs[i] == Verdicts(step.rates, ip, rest)[i - 1];
        }
      }
    }
  }

  /** A window opened by a call (the identity is new, or its old window is
      over) admits exactly the first `MAX` of the calls that fall within
      `WINDOW_MS` of the opening call, and refuses the rest. */
  lemma FreshWindowAdmission(m: RateMap, ip: string, times: seq<nat>)
    requires times != []
    requires ip !in m || Expired(m, ip, times[0])
    requires forall i :: 0 <= i < |times| ==> times[i] - times[0] <= WINDOW_MS
    ensures forall i :: 0 <= i < |times| ==> (Verdicts(m, ip, times)[i].allowed <==> i < MAX)
    ensures AdmittedCount(Verdicts(m, ip, times)) == Min(|times|, MAX)
  {
    var step := RateLimit(m, ip, times[0]);
    var rest := times[1..];
    assert forall i :: 0 <= i < |rest| ==> rest[i] == times[i + 1];
    OpenWindowAdmission(step.rates, ip, rest);
    var vs := Verdicts(m, ip, times);
    assert vs[1..] == Verdicts(step.rates, ip, rest);
    forall i | 0 <= i < |times|
      ensures vs[i].allowed <==> i < MAX
    {
      if i > 0 {
        assert vs[i] == Verdicts(step.rates, ip, rest)[i - 1];
      }
    }
  }

  /** Bounded admission: however the calls of one window are spaced, at most
      `MAX` of them get through. */
  lemma AtMostMaxPerWindow(m: RateMap, ip: string, times: seq<nat>)
    requires times != []
    requires ip !in m || Expired(m, ip, times[0]) || forall i :: 0 <= i < |times| ==> times[i] - m[ip].firstTs <= WINDOW_MS
    requires ip !in m || Expired(m, ip, times[0]) ==> forall i :: 0 <= i < |times| ==> times[i] - times[0] <= WINDOW_MS
    ensures AdmittedCount(Verdicts(m, ip, times)) <= MAX
  {
    if ip !in m || Expired(m, ip, times[0]) {
      FreshWindowAdmission(m, ip, times);
    } else {
      OpenWindowAdmission(m, ip, times);
    }
  }

  /** The hourly scenario: from a clean state, 21 requests within the first
      hour see the 21st refused, and a request an hour and a minute after the
      first is admitted again with a full quota. */
  lemma HourlyScenario(ip: string, times: seq<nat>)
    requires |times| == 21
    requires forall i :: 0 <= i < 21 ==> times[0] <= times[i] <= times[0] + WINDOW_MS
    ensures !Verdicts(map[], ip, times)[20].allowed
    ensures Verdicts(map[], ip, times + [times[0] + WINDOW_MS + 60 * 1000])[21] == Verdict(true, MAX - 1)
  {
    FreshWindowAdmission(map[], ip, times);
    var later := times[0] + WINDOW_MS + 60 * 1000;
    var all := times + [later];
    assert forall i :: 0 <= i < 21 ==> all[i] == times[i];
    assert all[21] == later;
    LastCallAfterWindow(map[], ip, all);
  }

  /** A call more than `WINDOW_MS` after the call that opened the window
      (which is admitted and stays the window's start) opens a new one. */
  lemma LastCallAfterWindow(m: RateMap, ip: string, times: seq<nat>)
    requires ip !in m && |times| >= 2
    requires forall i :: 0 <= i < |times| - 1 ==> times[0] <= times[i] <= times[0] + WINDOW_MS
    requires times[|times| - 1] - times[0] > WINDOW_MS
    ensures Verdicts(m, ip, times)[|times| - 1] == Verdict(true, MAX - 1)
  {
    var first := RateLimit(m, ip, times[0]);
    StartKept(first.rates, ip, times[1..], times[0]);
  }

  /** Calls that do not outlive the window keep its opening instant; the first
      call after the window is admitted with a full quota. */
  lemma {:induction false} StartKept(m: RateMap, ip: string, times: seq<nat>, start: nat)
    requires ip in m && m[ip].firstTs == start
    requires |times| >= 1
    requires forall i :: 0 <= i < |times| - 1 ==> times[i] - start <= WINDOW_MS
    requires times[|times| - 1] - start > WINDOW_MS
    ensures Verdicts(m, ip, times)[|times| - 1] == Verdict(true, MAX - 1)
    decreases |times|
  {
    var step := RateLimit(m, ip, times[0]);
    if |times| > 1 {
      var rest := times[1..];
      assert forall i :: 0 <= i < |rest| ==> rest[i] == times[i + 1];
      StartKept(step.rates, ip, rest, start);
      assert Verdicts(m, ip, times)[1..] == Verdicts(step.rates, ip, rest);
    }
  }
}

/** The `POST` handler of the description endpoint: a single pass over the
    rate limiter, body validation, the cache, the fallback template and the
    text provider, returning the response and the state the next request
    sees. */
module Orchestrator {
  import opened Wrappers
  import opened JsValues
  import opened ClientIdentity
  import opened RateLimiter
  import opened ResponseCache
  import opened Fallback

  /** The request body as `req.json()` leaves it: unparsable (the promise
      rejects), a JSON value that is not an object (`null`, a number, a
      string, an array: none has a `title`), or an object holding a listing
      together with its exact serialization `JSON.stringify(body)`, which is
      the cache key. */
  datatype Body = Unparsable | NonObject | Object(listing: Listing, json: string)

  datatype Request = Request(verb: string, headers: Headers, body: Body)

  /** What the text provider does with the prompt: answers with a text, with
      no text, or raises. */
  datatype Reply = Text(content: string) | NoText | Raised

  /** Configuration the handler reads: whether `GEMINI_API_KEY` is set to a
      non-empty value, and the runtime's currency formatter. */
  datatype Env = Env(hasApiKey: bool, currency: CurrencyFormat)

  /** The three `Date.now()` readings of one request: in `rateLimit`, in
      `getCache` (after the body is awaited) and in `setCache` (after the
      provider is awaited when a key is set). */
  datatype Clock = Clock(rateAt: nat, lookupAt: nat, storeAt: nat)

  /** The process-wide maps. */
  datatype State = State(rates: RateMap, cache: Cache)

  datatype Response =
    | MethodNotAllowed                                // 405
    | RateLimited                                     // 429
    | MissingFields                                   // 400
    | Cached(description: string)                     // 200, cached: true
    | FromTemplate(description: string)               // 200, fallback: true
    | Generated(description: string, remaining: int)  // 200, with the quota left
    | ProviderFailed                                  // 502
    | ServerError                                     // 500

  datatype Exchange = Exchange(response: Response, state: State)

  /** The HTTP status of each outcome: 200 exactly when a description is
      returned, and otherwise one of the handler's five error codes. */
  function Status(r: Response): (code: nat)
    ensures code == 200 <==> r.Cached? || r.FromTemplate? || r.Generated?
    ensures code in {200, 400, 405, 429, 500, 502}
  {
    match r
    case MethodNotAllowed => 405
    case RateLimited => 429
    case MissingFields => 400
    case Cached(_) => 200
    case FromTemplate(_) => 200
    case Generated(_, _) => 200
    case ProviderFailed => 502
    case ServerError => 500
  }

  /** Characters the handler strips from the provider's text. */
  const Markup: set<char> := {'"', '*'}

  /** `content.replace(/["*]/g, '').trim()`: no quote or asterisk remains,
      neither end is whitespace, and every other character that is not
      whitespace occurs as often as in `content`. In order: the content with
      its markup removed is whitespace, then the result, then whitespace
      (`TrimUnique` shows this fixes the result). */
  function CleanText(content: string): (r: string)
    ensures forall i :: 0 <= i < |r| ==> r[i] !in Markup
    ensures Trimmed(r)
    ensures forall c :: c !in Markup && !IsSpace(c) ==> multiset(r)[c] == multiset(content)[c]
    ensures var t := RemoveChars(content, Markup);
            && t == t[..KeptFrom(t)] + r + t[KeptUntil(t)..]
            && AllSpace(t[..KeptFrom(t)]) && AllSpace(t[KeptUntil(t)..])
  {
    var stripped := RemoveChars(content, Markup);
    StrippedTrimFacts(content, stripped);
    Trim(stripped)
  }

  /** What trimming the stripped content keeps: no markup, and every other
      character that is not whitespace as often as the content has it. */
  lemma StrippedTrimFacts(content: string, stripped: string)
    requires stripped == RemoveChars(content, Markup)
    ensures forall i :: 0 <= i < |Trim(stripped)| ==> Trim(stripped)[i] !in Markup
    ensures forall c :: c !in Markup && !IsSpace(c) ==> multiset(Trim(stripped))[c] == multiset(content)[c]
    ensures stripped == stripped[..KeptFrom(stripped)] + Trim(stripped) + stripped[KeptUntil(stripped)..]
  {
    var r := Trim(stripped);
    assert forall i :: 0 <= i < |r| ==> r[i] == stripped[KeptFrom(stripped) + i];
    assert stripped == stripped[..KeptFrom(stripped)] + r + stripped[KeptUntil(stripped)..];
    forall c | c !in Markup && !IsSpace(c)
      ensures multiset(r)[c] == multiset(content)[c]
    {
      TrimKeepsNonSpace(stripped, c);
      RemoveCharsKeepsOthers(content, Markup, c);
    }
  }

  /** Text with no quote or asterisk and no whitespace at its ends is
      already clean. */
  lemma CleanKeepsPlainText(content: string)
    requires forall i :: 0 <= i < |content| ==> content[i] !in Markup
    requires Trimmed(content)
    ensures CleanText(content) == content
  {
    RemoveCharsAbsent(content, Markup);
    TrimOfTrimmed(content);
  }

  /** Cleaning twice is cleaning once. */
  lemma CleanIdempotent(content: string)
    ensures CleanText(CleanText(content)) == CleanText(content)
  {
    CleanKeepsPlainText(CleanText(content));
  }

  /** Removal leaves only whitespace exactly when every character was
      whitespace or one of the removed ones. */
  lemma {:induction false} RemovedAllSpace(s: string, drop: set<char>)
    ensures AllSpace(RemoveChars(s, drop)) <==> forall i :: 0 <= i < |s| ==> s[i] in drop || IsSpace(s[i])
  {
    if s != [] {
      RemovedAllSpace(s[1..], drop);
      var head := if s[0] in drop then [] else [s[0]];
      assert RemoveChars(s, drop) == head + RemoveChars(s[1..], drop);
      if forall i :: 0 <= i < |s| ==> s[i] in drop || IsSpace(s[i]) {
        assert forall i :: 0 <= i < |s[1..]| ==> s[1..][i] == s[i + 1];
      } else {
        var k :| 0 <= k < |s| && !(s[k] in drop || IsSpace(s[k]));
        var r := RemoveChars(s, drop);
        if k > 0 {
          assert s[1..][k - 1] == s[k];
          var tail := RemoveChars(s[1..], drop);
          var j :| 0 <= j < |tail| && !IsSpace(tail[j]);
          assert r[|head| + j] == tail[j];
        } else {
          assert r[0] == s[0];
        }
      }
    }
  }

  /** The provider's text is unusable exactly when it holds nothing but
      quotes, asterisks and whitespace. */
  lemma CleanEmptyIff(content: string)
    ensures CleanText(content) == "" <==> forall i :: 0 <= i < |content| ==> content[i] in Markup || IsSpace(content[i])
  {
    TrimEmptyIff(RemoveChars(content, Markup));
    RemovedAllSpace(content, Markup);
  }

  /** `(body.features || []).join(', ')` in the prompt throws exactly when
      `features` is a truthy non-array (it has no `join`). */
  predicate PromptThrows(l: Listing) {
    l.features.NonArray? && Truthy(l.features.v)
  }

  /** Serves the template text: the fallback is stored under the key and
      returned, or the request fails if building it throws. */
  function ServeFallback(s: State, l: Listing, key: string, env: Env, at: nat): (x: Exchange)
    ensures x.response.FromTemplate? || x.response == ServerError
    ensures x.response.FromTemplate? ==>
              FallbackDescription(l, env.currency) == Normal(x.response.description)
              && x.response.description != ""
              && x.state == s.(cache := SetCache(s.cache, key, x.response.description, at))
    ensures x.response == ServerError ==> x.state == s
  {
    match FallbackDescription(l, env.currency)
    case Throw => Exchange(ServerError, s)
    case Normal(d) => Exchange(FromTemplate(d), s.(cache := SetCache(s.cache, key, d, at)))
  }

  /** The part of the handler after a cache miss (lines 93-149): template
      without a key, otherwise the provider's cleaned text, the template when
      it cleans to nothing, 502 when there is no text, 500 when the prompt
      or the provider throws. Only the entry under `key` may change, and
      only a description served fresh is written. */
  function Generate(s: State, l: Listing, key: string, env: Env, at: nat, reply: Reply, remaining: int)
    : (x: Exchange)
    ensures x.state.rates == s.rates && x.state.cache - {key} == s.cache - {key}
    ensures x.response.FromTemplate? || x.response.Generated? || x.response in {ServerError, ProviderFailed}
    ensures x.response.FromTemplate? || x.response.Generated? ==>
              && x.response.description != ""
              && key in x.state.cache && x.state.cache[key] == CacheEntry(x.response.description, at)
    ensures !(x.response.FromTemplate? || x.response.Generated?) ==> x.state == s
    ensures x.response.Generated? ==> x.response.remaining == remaining
    ensures x.response.FromTemplate? ==> FallbackDescription(l, env.currency) == Normal(x.response.description)
  {
    if !env.hasApiKey then ServeFallback(s, l, key, env, at)
    else if PromptThrows(l) then Exchange(ServerError, s)
    else match reply
      case Raised => Exchange(ServerError, s)
      case NoText => Exchange(ProviderFailed, s)
      case Text(content) =>
        if content == "" then Exchange(ProviderFailed, s)
        else
          var description := CleanText(content);
          if description == "" then ServeFallback(s, l, key, env, at)
          else Exchange(Generated(description, remaining),
                        s.(cache := SetCache(s.cache, key, description, at)))
  }

  /** The part of the handler after admission (lines 85-149): body
      validation, then the cache, then generation. The counters are not
      touched here. */
  function Handle(s: State, body: Body, env: Env, clock: Clock, reply: Reply, remaining: int)
    : (x: Exchange)
    ensures x.state.rates == s.rates
  {
    match body
    case Unparsable => Exchange(ServerError, s)
    case NonObject => Exchange(MissingFields, s)
    case Object(l, key) =>
      if !Truthy(l.title) then Exchange(MissingFields, s)
      else
        var read := GetCache(s.cache, key, clock.lookupAt);
        var s' := s.(cache := read.cache);
        if read.hit.Some? && read.hit.value != "" then Exchange(Cached(read.hit.value), s')
        else Generate(s', l, key, env, clock.storeAt, reply, remaining)
  }

  /** `POST(req)`. A request touches only its own identity's counter, which
      ends as the limiter left it, and its own cache key. */
  function Post(s: State, req: Request, env: Env, clock: Clock, reply: Reply): (x: Exchange)
    ensures x.state.rates - {GetIp(req.headers)} == s.rates - {GetIp(req.headers)}
    ensures req.verb == "POST" ==> x.state.rates == RateLimit(s.rates, GetIp(req.headers), clock.rateAt).rates
    ensures req.body.Object? ==> x.state.cache - {req.body.json} == s.cache - {req.body.json}
    ensures !req.body.Object? ==> x.state.cache == s.cache
  {
    if req.verb != "POST" then Exchange(MethodNotAllowed, s)
    else
      var rl := RateLimit(s.rates, GetIp(req.headers), clock.rateAt);
      if !rl.verdict.allowed then Exchange(RateLimited, s.(rates := rl.rates))
      else Handle(s.(rates := rl.rates), req.body, env, clock, reply, rl.verdict.remaining)
  }

  // ---------------------------------------------------------------------------
  // Properties of one request

  /** The rate-limit step of a request. */
  function Admission(s: State, req: Request, clock: Clock): RateStep {
    RateLimit(s.rates, GetIp(req.headers), clock.rateAt)
  }

  /** The request reaches the body: it is a POST that the limiter admits. */
  predicate Admitted(s: State, req: Request, clock: Clock) {
    req.verb == "POST" && Admission(s, req, clock).verdict.allowed
  }

  /** A valid listing body: an object whose `title` is truthy. */
  predicate Titled(req: Request) {
    req.body.Object? && Truthy(req.body.listing.title)
  }

  /** The cache read of a titled request. */
  function Lookup(s: State, req: Request, clock: Clock): CacheRead
    requires Titled(req)
  {
    GetCache(s.cache, req.body.json, clock.lookupAt)
  }

  /** The cache answers with a servable (non-empty) description. */
  predicate Servable(s: State, req: Request, clock: Clock)
    requires Titled(req)
  {
    var hit := Lookup(s, req, clock).hit;
    hit.Some? && hit.value != ""
  }

  /** `a` holds a subset of the entries of `b`, unchanged. */
  predicate SubMap<K, V(==)>(a: map<K, V>, b: map<K, V>) {
    a.Keys <= b.Keys && forall k :: k in a ==> a[k] == b[k]
  }

  /** An admitted request is handled on the state with its count recorded. */
  lemma PostAdmitted(s: State, req: Request, env: Env, clock: Clock, reply: Reply)
    requires Admitted(s, req, clock)
    ensures Post(s, req, env, clock, reply)
            == Handle(s.(rates := Admission(s, req, clock).rates), req.body, env, clock, reply,
                      Admission(s, req, clock).verdict.remaining)
  {
  }

  /** A titled request that misses the cache goes on to generation with the
      cache as the read left it. */
  lemma HandleMiss(s: State, req: Request, env: Env, clock: Clock, reply: Reply, remaining: int)
    requires Titled(req) && !Servable(s, req, clock)
    ensures Handle(s, req.body, env, clock, reply, remaining)
            == Generate(s.(cache := Lookup(s, req, clock).cache), req.body.listing, req.body.json,
                        env, clock.storeAt, reply, remaining)
  {
  }

  /** A refused request is answered 429 before the body is looked at: the
      answer and the state are the same whatever the body, the
      configuration or the provider, and nothing is recorded. */
  lemma RateLimitedFirst(s: State, req: Request, env: Env, clock: Clock, reply: Reply,
                         body': Body, env': Env, reply': Reply)
    requires req.verb == "POST" && !Admission(s, req, clock).verdict.allowed
    ensures Post(s, req, env, clock, reply) == Exchange(RateLimited, s)
    ensures Post(s, req.(body := body'), env', clock, reply') == Post(s, req, env, clock, reply)
  {
  }

  /** An admitted request without a truthy `title` is answered 400 whatever
      the configuration, the provider and the cache; only the rate count
      moves. */
  lemma MissingTitleRejected(s: State, req: Request, env: Env, clock: Clock, reply: Reply,
                             cache': Cache, env': Env, reply': Reply)
    requires Admitted(s, req, clock) && req.body != Unparsable && !Titled(req)
    ensures Post(s, req, env, clock, reply) == Exchange(MissingFields, s.(rates := Admission(s, req, clock).rates))
    ensures Post(s.(cache := cache'), req, env', clock, reply').response == MissingFields
  {
    PostAdmitted(s, req, env, clock, reply);
    PostAdmitted(s.(cache := cache'), req, env', clock, reply');
  }

  /** A live, non-empty cache entry is served as it is: the provider and the
      template are not consulted and the cache is not written. */
  lemma CacheHitServed(s: State, req: Request, env: Env, clock: Clock, reply: Reply,
                       env': Env, reply': Reply)
    requires Admitted(s, req, clock) && Titled(req)
    requires Live(s.cache, req.body.json, clock.lookupAt) && s.cache[req.body.json].value != ""
    ensures Post(s, req, env, clock, reply)
            == Exchange(Cached(s.cache[req.body.json].value), s.(rates := Admission(s, req, clock).rates))
    ensures Post(s, req, env', clock, reply') == Post(s, req, env, clock, reply)
  {
    PostAdmitted(s, req, env, clock, reply);
    PostAdmitted(s, req, env', clock, reply');
  }

  /** Without a provider key the template is served and cached (or the
      request fails with 500 if the template throws); the provider's answer
      plays no part. */
  lemma NoKeyServesTemplate(s: State, req: Request, env: Env, clock: Clock, reply: Reply, reply': Reply)
    requires Admitted(s, req, clock) && Titled(req) && !Servable(s, req, clock) && !env.hasApiKey
    ensures var x := Post(s, req, env, clock, reply);
            match FallbackDescription(req.body.listing, env.currency)
            case Normal(d) =>
              x.response == FromTemplate(d)
              && x.state.cache == SetCache(Lookup(s, req, clock).cache, req.body.json, d, clock.storeAt)
            case Throw => x.response == ServerError
    ensures Post(s, req, env, clock, reply') == Post(s, req, env, clock, reply)
  {
    var s1 := s.(rates := Admission(s, req, clock).rates);
    var rem := Admission(s, req, clock).verdict.remaining;
    PostAdmitted(s, req, env, clock, reply);
    PostAdmitted(s, req, env, clock, reply');
    HandleMiss(s1, req, env, clock, reply, rem);
    HandleMiss(s1, req, env, clock, reply', rem);
  }

  /** 502 is answered exactly when a configured provider is reached and
      returns no text at all; that answer is not cached. */
  lemma ProviderFailureIff(s: State, req: Request, env: Env, clock: Clock, reply: Reply)
    ensures var x := Post(s, req, env, clock, reply);
            x.response == ProviderFailed <==>
              && Admitted(s, req, clock) && Titled(req) && !Servable(s, req, clock)
              && env.hasApiKey && !PromptThrows(req.body.listing)
              && (reply == NoText || reply == Text(""))
    ensures var x := Post(s, req, env, clock, reply);
            x.response == ProviderFailed ==> x.state.cache == Lookup(s, req, clock).cache
  {
    if Admitted(s, req, clock) {
      PostAdmitted(s, req, env, clock, reply);
      var s1 := s.(rates := Admission(s, req, clock).rates);
      if Titled(req) && !Servable(s, req, clock) {
        HandleMiss(s1, req, env, clock, reply, Admission(s, req, clock).verdict.remaining);
      }
    }
  }

  /** 405 is answered exactly to a request whose method is not `POST`, and
      such a request leaves no trace. */
  lemma MethodNotAllowedIff(s: State, req: Request, env: Env, clock: Clock, reply: Reply)
    ensures var x := Post(s, req, env, clock, reply);
            Status(x.response) == 405 <==> req.verb != "POST"
    ensures req.verb != "POST" ==> Post(s, req, env, clock, reply).state == s
  {
    if Admitted(s, req, clock) {
      PostAdmitted(s, req, env, clock, reply);
      if Titled(req) && !Servable(s, req, clock) {
        HandleMiss(s.(rates := Admission(s, req, clock).rates), req, env, clock, reply,
                   Admission(s, req, clock).verdict.remaining);
      }
    }
  }

  /** The template throws when it is built for this listing. */
  predicate TemplateThrows(l: Listing) {
    FeaturesClause(l.features).Throw?
  }

  /** 500 is answered exactly when an admitted request has a body that does
      not parse, or a titled request that misses the cache throws on the way:
      the template throws where it is used, the prompt cannot be built, or
      the provider raises. The count taken and the expired entry dropped
      before the throw stay as they are. */
  lemma ServerErrorIff(s: State, req: Request, env: Env, clock: Clock, reply: Reply)
    ensures var x := Post(s, req, env, clock, reply);
            x.response == ServerError <==>
              && Admitted(s, req, clock)
              && (|| req.body == Unparsable
                  || (&& Titled(req) && !Servable(s, req, clock)
                      && if !env.hasApiKey then TemplateThrows(req.body.listing)
                         else || PromptThrows(req.body.listing)
                              || reply == Raised
                              || (&& reply.Text? && reply.content != ""
                                  && CleanText(reply.content) == ""
                                  && TemplateThrows(req.body.listing))))
    ensures var x := Post(s, req, env, clock, reply);
            x.response == ServerError ==>
              && x.state.rates == Admission(s, req, clock).rates
              && (req.body.Object? ==> x.state.cache == Lookup(s, req, clock).cache)
              && (!req.body.Object? ==> x.state.cache == s.cache)
  {
    if Admitted(s, req, clock) {
      PostAdmitted(s, req, env, clock, reply);
      if Titled(req) && !Servable(s, req, clock) {
        HandleMiss(s.(rates := Admission(s, req, clock).rates), req, env, clock, reply,
                   Admission(s, req, clock).verdict.remaining);
      }
    }
  }

  /** A generated description is the provider's text cleaned: non-empty,
      free of quotes and asterisks, trimmed; it is cached under the request's
      key, and the quota reported is what the window has left. */
  lemma GeneratedIsCleanAndCached(s: State, req: Request, env: Env, clock: Clock, reply: Reply)
    requires Post(s, req, env, clock, reply).response.Generated?
    ensures var x := Post(s, req, env, clock, reply);
            var d := x.response.description;
            && Admitted(s, req, clock) && Titled(req) && !Servable(s, req, clock) && env.hasApiKey
            && reply.Text? && d == CleanText(reply.content)
            && d != "" && Trimmed(d) && (forall i :: 0 <= i < |d| ==> d[i] != '"' && d[i] != '*')
            && req.body.json in x.state.cache && x.state.cache[req.body.json] == CacheEntry(d, clock.storeAt)
            && x.response.remaining == Admission(s, req, clock).verdict.remaining
            && 0 <= x.response.remaining < MAX
  {
    GeneratedIff(s, req, env, clock, reply);
    UsableTextServed(s, req, env, clock, reply.content);
  }

  /** The provider's text is served exactly when the request is admitted,
      titled, not answered from the cache, the key is set, the prompt can be
      built and the text cleans to something (`UsableTextServed` gives the
      exchange). */
  lemma GeneratedIff(s: State, req: Request, env: Env, clock: Clock, reply: Reply)
    ensures Post(s, req, env, clock, reply).response.Generated?
            <==> && Admitted(s, req, clock) && Titled(req) && !Servable(s, req, clock)
                 && env.hasApiKey && !PromptThrows(req.body.listing)
                 && reply.Text? && CleanText(reply.content) != ""
  {
    if Admitted(s, req, clock) {
      PostAdmitted(s, req, env, clock, reply);
      if Titled(req) && !Servable(s, req, clock) {
        HandleMiss(s.(rates := Admission(s, req, clock).rates), req, env, clock, reply,
                   Admission(s, req, clock).verdict.remaining);
      }
    }
  }

  /** Usable provider text is served cleaned, with the window's quota, and
      cached under the request's key at the store time. */
  lemma UsableTextServed(s: State, req: Request, env: Env, clock: Clock, content: string)
    requires Admitted(s, req, clock) && Titled(req) && !Servable(s, req, clock)
    requires env.hasApiKey && !PromptThrows(req.body.listing) && CleanText(content) != ""
    ensures Post(s, req, env, clock, Text(content))
            == Exchange(Generated(CleanText(content), Admission(s, req, clock).verdict.remaining),
                        State(Admission(s, req, clock).rates,
                              SetCache(Lookup(s, req, clock).cache, req.body.json,
                                       CleanText(content), clock.storeAt)))
  {
    PostAdmitted(s, req, env, clock, Text(content));
    HandleMiss(s.(rates := Admission(s, req, clock).rates), req, env, clock, Text(content),
               Admission(s, req, clock).verdict.remaining);
  }

  /** Text that cleans to nothing falls back to the template, cached like any
      other description. */
  lemma EmptyCleanFallsBack(s: State, req: Request, env: Env, clock: Clock, content: string)
    requires Admitted(s, req, clock) && Titled(req) && !Servable(s, req, clock)
    requires env.hasApiKey && !PromptThrows(req.body.listing)
    requires content != "" && forall i :: 0 <= i < |content| ==> content[i] in Markup || IsSpace(content[i])
    ensures var x := Post(s, req, env, clock, Text(content));
            match FallbackDescription(req.body.listing, env.currency)
            case Normal(d) =>
              x.response == FromTemplate(d)
              && x.state.cache == SetCache(Lookup(s, req, clock).cache, req.body.json, d, clock.storeAt)
            case Throw => x.response == ServerError
  {
    CleanEmptyIff(content);
    PostAdmitted(s, req, env, clock, Text(content));
    HandleMiss(s.(rates := Admission(s, req, clock).rates), req, env, clock, Text(content),
               Admission(s, req, clock).verdict.remaining);
  }

  /** The cache is written only when a description is served fresh; every
      other outcome at most forgets the expired entry it read. */
  lemma CacheWrittenOnlyOnFreshDescription(s: State, req: Request, env: Env, clock: Clock, reply: Reply)
    ensures var x := Post(s, req, env, clock, reply);
            !(x.response.FromTemplate? || x.response.Generated?) ==> SubMap(x.state.cache, s.cache)
  {
    if Admitted(s, req, clock) {
      PostAdmitted(s, req, env, clock, reply);
      if Titled(req) && !Servable(s, req, clock) {
        HandleMiss(s.(rates := Admission(s, req, clock).rates), req, env, clock, reply,
                   Admission(s, req, clock).verdict.remaining);
      }
    }
  }

  // ---------------------------------------------------------------------------
  // Properties across requests

  /** The state every request leaves behind: counters within bounds and no
      empty description cached. */
  predicate Valid(s: State) {
    ValidRates(s.rates) && NonEmptyValues(s.cache)
  }

  /** Changing one entry to a non-empty description, or dropping it, keeps
      every cached description non-empty. */
  lemma NonEmptyAfterOneKey(c: Cache, c': Cache, key: string)
    requires NonEmptyValues(c)
    requires c' - {key} == c - {key}
    requires key in c' ==> c'[key].value != ""
    ensures NonEmptyValues(c')
  {
    forall k | k in c'
      ensures c'[k].value != ""
    {
      if k != key {
        assert k in c' - {key};
        assert c'[k] == (c' - {key})[k] == (c - {key})[k] == c[k];
      }
    }
  }

  /** Handling an admitted request keeps every cached description
      non-empty. */
  lemma HandleKeepsNonEmpty(s: State, body: Body, env: Env, clock: Clock, reply: Reply, remaining: int)
    requires NonEmptyValues(s.cache)
    ensures NonEmptyValues(Handle(s, body, env, clock, reply, remaining).state.cache)
  {
    if body.Object? && Truthy(body.listing.title) {
      var key := body.json;
      var read := GetCache(s.cache, key, clock.lookupAt);
      HitNonEmpty(s.cache, key, clock.lookupAt);
      var s' := s.(cache := read.cache);
      if !(read.hit.Some? && read.hit.value != "") {
        var x := Generate(s', body.listing, key, env, clock.storeAt, reply, remaining);
        NonEmptyAfterOneKey(read.cache, x.state.cache, key);
      }
    }
  }

  /** Every request preserves the state invariant. */
  lemma PostPreservesValid(s: State, req: Request, env: Env, clock: Clock, reply: Reply)
    requires Valid(s)
    ensures Valid(Post(s, req, env, clock, reply).state)
  {
    if Admitted(s, req, clock) {
      var rl := Admission(s, req, clock);
      PostAdmitted(s, req, env, clock, reply);
      HandleKeepsNonEmpty(s.(rates := rl.rates), req.body, env, clock, reply, rl.verdict.remaining);
    }
  }

  /** In a valid state the emptiness test on a hit never fires: every live
      entry is served. */
  lemma LiveEntryAlwaysServed(s: State, req: Request, clock: Clock)
    requires Valid(s) && Titled(req)
    ensures Live(s.cache, req.body.json, clock.lookupAt) <==> Servable(s, req, clock)
  {
  }

  /** A description served fresh is non-empty and stored under the
      request's key at the store instant. */
  lemma FreshDescriptionCached(s: State, req: Request, env: Env, clock: Clock, reply: Reply)
    requires var x := Post(s, req, env, clock, reply);
             x.response.FromTemplate? || x.response.Generated?
    ensures Titled(req)
    ensures var x := Post(s, req, env, clock, reply);
            && x.response.description != ""
            && req.body.json in x.state.cache
            && x.state.cache[req.body.json] == CacheEntry(x.response.description, clock.storeAt)
  {
    PostAdmitted(s, req, env, clock, reply);
    if Titled(req) && !Servable(s, req, clock) {
      HandleMiss(s.(rates := Admission(s, req, clock).rates), req, env, clock, reply,
                 Admission(s, req, clock).verdict.remaining);
    }
  }

  /** Two identical requests back to back: a description served fresh is
      served from the cache by the next identical request that is admitted
      within the time-to-live, whatever the provider does then. */
  lemma RepeatServedFromCache(s: State, req: Request, env: Env, clock: Clock, reply: Reply,
                              req': Request, env': Env, clock': Clock, reply': Reply)
    requires var x := Post(s, req, env, clock, reply);
             x.response.FromTemplate? || x.response.Generated?
    requires req'.body == req.body
    requires Admitted(Post(s, req, env, clock, reply).state, req', clock')
    requires clock'.lookupAt - clock.storeAt <= CACHE_TTL_MS
    ensures var x := Post(s, req, env, clock, reply);
            Post(x.state, req', env', clock', reply').response == Cached(x.response.description)
  {
    var x := Post(s, req, env, clock, reply);
    FreshDescriptionCached(s, req, env, clock, reply);
    CacheHitServed(x.state, req', env', clock', reply', env', reply');
  }
}

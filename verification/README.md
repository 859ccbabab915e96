# Listing-description endpoint: a Dafny model

This project models the core of the listing-description endpoint of a real
estate web application (`POST /api/generate-description`). The handler works
in a fixed order:

1. It derives a caller identity from the proxy headers.
2. It counts the caller against a per-identity fixed window of 20 requests
   per hour.
3. It checks that the body carries a `title`.
4. It answers from a five-minute cache keyed by the serialized body.
5. Otherwise it builds a description. Without a provider key it uses a
   deterministic template. With a key it takes the text provider's answer,
   strips quotes, asterisks and surrounding whitespace, and falls back to
   the template when nothing is left.

Every fresh description is cached. The provider itself is outside the
model. Its answer is an input.

The process-wide maps are immutable values. `Post` takes the state, the
request, the configuration, the three clock readings and the provider's
answer. It returns the response together with the state that the next
request sees.

| file | module | what it holds |
|---|---|---|
| `wrappers.dfy` | `Wrappers` | `Option`; `Completion`, a value or a thrown exception |
| `jsvalues.dfy` | `JsValues` | the JavaScript semantics the handler relies on, for JSON scalars: truthiness, `String(v)`, `Number(v)`, `trim`, `join`, removing a character class |
| `clientidentity.dfy` | `ClientIdentity` | `getIp` |
| `ratelimiter.dfy` | `RateLimiter` | `rateLimit`, and the admission pattern of a sequence of calls |
| `responsecache.dfy` | `ResponseCache` | `getCache` and `setCache` with their time-to-live |
| `fallback.dfy` | `Fallback` | `formatPrice`, `fallbackDescription`, and an en-US dollar formatter for the example listing |
| `orchestrator.dfy` | `Orchestrator` | the `POST` decision sequence, its per-request properties and its properties across requests |

## Model

All source paths are `src/app/api/generate-description/route.js`.

| member | source | states |
|---|---|---|
| ClientIdentity.FirstPiece | src/app/api/generate-description/route.js:17 | `split(',')[0]` is a prefix of the header with no comma in it, and it ends at the first comma or at the end of the header. |
| ClientIdentity.GetIp | src/app/api/generate-description/route.js:16-19 | The identity is never empty. It is the trimmed first `x-forwarded-for` entry when that is non-blank. Otherwise it is a non-empty `x-real-ip` as sent, and otherwise `"unknown"`. |
| ClientIdentity.IdentityIgnoresLaterProxies | src/app/api/generate-description/route.js:17 | Proxies appended after the first comma never change the identity. |
| ClientIdentity.ForwardedWinsOverRealIp | src/app/api/generate-description/route.js:16-19 | A non-blank forwarded client makes `x-real-ip` irrelevant. |
| ClientIdentity.ForwardedIdentityShape | src/app/api/generate-description/route.js:17 | An identity taken from `x-forwarded-for` is trimmed and contains no comma. |
| ClientIdentity.BlankFirstEntry | src/app/api/generate-description/route.js:17 | A whitespace-only first entry names no client, whatever follows it. |
| ClientIdentity.AnonymousRequestsShareIdentity | src/app/api/generate-description/route.js:16-19 | Two instances: a request with no headers, and one whose first forwarded entry is blank and whose `x-real-ip` is empty, both land in the `"unknown"` bucket. The general fact follows from `BlankFirstEntry` and `GetIp`. |
| RateLimiter.RateLimit | src/app/api/generate-description/route.js:20-34 | Covers every branch of one call: an expired window restarts at 1 with 19 left; a new identity starts at 1; a full, live window refuses with 0 and leaves the map unchanged; otherwise the count goes up by one and `remaining` is `MAX - count`. Other identities are never touched, and counts stay in `1..MAX`. |
| RateLimiter.OpenWindowAdmission | src/app/api/generate-description/route.js:20-34 | In an already-open window, the i-th call is admitted if and only if `i < MAX - count`. The number admitted is `min(calls, MAX - count)`. |
| RateLimiter.FreshWindowAdmission | src/app/api/generate-description/route.js:20-34 | In a window opened by the first call, exactly the first 20 calls are admitted and every later call in the hour is refused. |
| RateLimiter.AtMostMaxPerWindow | src/app/api/generate-description/route.js:20-34 | However the calls of one window are spaced, at most 20 are admitted. |
| RateLimiter.StartKept | src/app/api/generate-description/route.js:22-33 | Calls inside a window never move its opening instant, so the first call more than an hour after it is admitted with a full quota. |
| RateLimiter.LastCallAfterWindow | src/app/api/generate-description/route.js:22-25 | The first call past the hour opened by a new identity's first call starts a new window: `Verdict(true, 19)`. |
| RateLimiter.HourlyScenario | src/app/api/generate-description/route.js:20-34 | Of 21 calls in the first hour, the 21st is refused. A call at one hour and one minute is admitted with 19 remaining. |
| ResponseCache.GetCache | src/app/api/generate-description/route.js:36-43 | A live entry is returned and the map is unchanged. A missing key gives null. An expired entry gives null and that one key is deleted. A read never adds or alters an entry. |
| ResponseCache.SetCache | src/app/api/generate-description/route.js:45-47 | The key then maps to the value stamped with the current instant. Every other key is unchanged, and the key set gains just this key. |
| ResponseCache.HitWithinTtl | src/app/api/generate-description/route.js:36-47 | A stored value is served for five minutes after it is stored, and reading it does not change the cache. |
| ResponseCache.EvictedAfterTtl | src/app/api/generate-description/route.js:38-40 | After five minutes the read misses and removes exactly that entry. |
| ResponseCache.SetLeavesOtherKeys | src/app/api/generate-description/route.js:45-47 | A write is invisible to reads of any other key. |
| ResponseCache.LastWriteWins | src/app/api/generate-description/route.js:45-47 | A second write to a key replaces the first completely. |
| ResponseCache.ReadIdempotent | src/app/api/generate-description/route.js:36-43 | Reading twice at the same instant is the same as reading once: an entry is evicted at most once. |
| ResponseCache.HitNonEmpty | src/app/api/generate-description/route.js:36-43 | If no stored description is empty, then neither a hit nor the map after the read holds an empty one. |
| JsValues.DecimalRoundTrip | src/app/api/generate-description/route.js:52-53 | Reading back the decimal numeral that `String(n)` writes gives `n`. |
| JsValues.NumberOfStringRoundTrip | src/app/api/generate-description/route.js:52-53 | `Number(String(n)) === n` for every integer, including negatives. |
| JsValues.Trim | src/app/api/generate-description/route.js:140 | The input is whitespace, then the result, then whitespace. The result has no whitespace at either end. |
| JsValues.TrimUnique | src/app/api/generate-description/route.js:140 | Any split of a string into whitespace, a piece with no whitespace at its ends, and whitespace gives that piece as `trim`'s result, so `Trim`'s contract determines it. |
| JsValues.TrimKeepsNonSpace | src/app/api/generate-description/route.js:140 | Every character that is not whitespace occurs in the trimmed text as often as in the input. |
| JsValues.TrimOfTrimmed | src/app/api/generate-description/route.js:140 | A string with no whitespace at either end is left as it is. |
| JsValues.TrimIdempotent | src/app/api/generate-description/route.js:140 | Trimming twice is trimming once. |
| JsValues.TrimEmptyIff | src/app/api/generate-description/route.js:140-142 | `trim` gives `""` if and only if the input is all whitespace. |
| JsValues.RemoveChars | src/app/api/generate-description/route.js:140 | `replace(/["*]/g, '')` with the class as a set: no character of the class is left, the result is no longer than the input, and `RemoveCharsSingle` with `RemoveCharsAppend` fixes what is kept and in which order. |
| JsValues.RemoveCharsSingle | src/app/api/generate-description/route.js:140 | A single character is removed exactly when it is in the class. |
| JsValues.RemoveCharsKeepsOthers | src/app/api/generate-description/route.js:140 | Every character outside the class occurs in the result as often as in the input. |
| JsValues.RemoveCharsAppend | src/app/api/generate-description/route.js:140 | Removing a character class distributes over concatenation. |
| JsValues.Join | src/app/api/generate-description/route.js:70 | `join(sep)`: an empty array gives `""`, one element gives that element's text (`null` and `undefined` as `""`), and further elements follow after `sep`. `JoinAppend` states how joins compose. |
| JsValues.JoinAppend | src/app/api/generate-description/route.js:70 | Joining two non-empty arrays end to end puts exactly one separator between their joins. |
| JsValues.ToText | src/app/api/generate-description/route.js:66-68 | `String(v)` and `${v}` on a scalar: `undefined`, `null` and booleans as their names, numbers as their decimal numeral (`NumberOfStringRoundTrip` reads it back), strings as themselves. The text is empty only for the empty string. |
| JsValues.Truthy | src/app/api/generate-description/route.js:135-142 | ToBoolean as used by every test in the handler (`!content` and `!description` here, and also lines 17-18, 67-69, 86 and 90): `undefined`, `null`, `false`, `0` and `""` are falsy and every other scalar is truthy. |
| JsValues.TruthyIff | src/app/api/generate-description/route.js:135-142 | A scalar is truthy if and only if it is not one of the five falsy values listed in `Falsy`. |
| JsValues.StringToNumber | src/app/api/generate-description/route.js:52 | `Number(s)` on a string: surrounding whitespace is ignored, so a whitespace-only string reads as 0, and an optionally signed decimal numeral reads as its integer (`ParseDigits`, `NumberOfStringRoundTrip`). Anything else is `NaN`, within the grammar subset listed under Left out. |
| JsValues.ToNumber | src/app/api/generate-description/route.js:52 | `Number(price)` on a JSON scalar: `undefined` is `NaN`, `null` is 0, booleans are 0 or 1, numbers are themselves, and strings go through `StringToNumber`. |
| Fallback.FormatPrice | src/app/api/generate-description/route.js:49-62 | Null or undefined gives `""`. A non-numeric price gives `String(price)`. A numeric one gives the formatter's text, or `String(price)` when the formatter throws. |
| Fallback.PriceShownIff | src/app/api/generate-description/route.js:49-62 | With a formatter that always produces text, a price is shown if and only if the field is present and not null. That includes `""`, `false` and `0`, which all format as the amount zero. |
| Fallback.NumeralPricedAsNumber | src/app/api/generate-description/route.js:52-58 | A price sent as the numeral string of `n` is formatted exactly like `n` itself. |
| Fallback.OrZero | src/app/api/generate-description/route.js:68 | `${v || 0}`: never empty, and any falsy value is written as `0`. |
| Fallback.AreaClause | src/app/api/generate-description/route.js:67 | The area sentence is present if and only if `area` is truthy, and then it embeds `String(area)`. |
| Fallback.RoomsClause | src/app/api/generate-description/route.js:68 | The rooms sentence is present if and only if `beds` or `baths` is truthy. A falsy count is written as `0`. |
| Fallback.PriceClause | src/app/api/generate-description/route.js:69 | The price sentence is present if and only if the formatted price is non-empty. |
| Fallback.FeaturesClause | src/app/api/generate-description/route.js:64-70 | A non-empty array gives "Key features include: …" joined with ", ". It throws if and only if `features` is `null` or a non-empty string. Every other scalar, and a missing field, gives `""`. |
| Fallback.FallbackDescription | src/app/api/generate-description/route.js:64-73 | The template throws exactly when the features clause throws. Otherwise the text begins with `title` and a period. |
| Fallback.BareTitleIff | src/app/api/generate-description/route.js:64-73 | The description is just `title + "."` if and only if no optional clause applies. |
| Fallback.EndsWithFeatures | src/app/api/generate-description/route.js:70-72 | A non-empty feature list always closes the description. |
| Fallback.EndsWithPeriodIff | src/app/api/generate-description/route.js:66-72 | The description ends with a period unless the area clause is the last clause present. |
| Fallback.AreaClauseFollowsTitle | src/app/api/generate-description/route.js:66-67 | " This " directly follows the title's period if and only if `area` is truthy. |
| Fallback.GroupingRoundTrip | src/app/api/generate-description/route.js:54-58 | For `EnUsDollars`, the stand-in `en-US` formatter used by the example listing, thousands grouping only inserts commas: removing them gives the digits back. It says nothing about `Intl` itself. |
| Fallback.ExampleListingScenario | src/app/api/generate-description/route.js:64-73 | An example listing (title "Sunny Loft", price 250000, 2 beds, 1 bath, 80 sqm, balcony and parking) produces the full sentence with "$250,000". |
| Orchestrator.CleanText | src/app/api/generate-description/route.js:140 | A cleaned text contains no `"` or `*` and has no whitespace at either end. Every character of the content that is neither markup nor whitespace occurs in it as often as in the content. In order, the content with its markup removed is whitespace, then the result, then whitespace, so `TrimUnique` fixes the result. |
| Orchestrator.CleanKeepsPlainText | src/app/api/generate-description/route.js:140 | Text with no `"` or `*` and no whitespace at its ends is returned unchanged. |
| Orchestrator.CleanIdempotent | src/app/api/generate-description/route.js:140 | Cleaning twice is cleaning once. |
| Orchestrator.RemovedAllSpace | src/app/api/generate-description/route.js:140-142 | After removal only whitespace remains if and only if every character was whitespace or a removed one. |
| Orchestrator.CleanEmptyIff | src/app/api/generate-description/route.js:140-142 | The provider's text cleans to nothing if and only if it holds only quotes, asterisks and whitespace. |
| Orchestrator.PromptThrows | src/app/api/generate-description/route.js:124 | `(body.features || []).join(', ')` throws exactly when `features` is truthy and not an array, because such a value has no `join`. `ServerErrorIff` makes this a 500. |
| Orchestrator.Status | src/app/api/generate-description/route.js:76-153 | The status the handler answers with: 200 exactly for a cached, template or generated description. Otherwise it is one of 405 (line 78), 429 (line 83), 400 (line 86), 502 (line 137) or 500 (line 152). |
| Orchestrator.ServeFallback | src/app/api/generate-description/route.js:143-145 | A served template equals the fallback text, is non-empty and is cached under the key. A template that throws changes nothing. |
| Orchestrator.Generate | src/app/api/generate-description/route.js:93-149 | After a cache miss, only the entry under the request's key can change. Every description served fresh is non-empty and is stored with the store instant. A template answer is `fallbackDescription`'s text. Failures leave the state unchanged. A generated answer reports the quota it was given. |
| Orchestrator.Handle | src/app/api/generate-description/route.js:85-90 | Handling after admission never touches the rate counters. |
| Orchestrator.PostAdmitted | src/app/api/generate-description/route.js:80-85 | An admitted POST is handled on the state that has its count recorded, with the quota the limiter reported. |
| Orchestrator.HandleMiss | src/app/api/generate-description/route.js:88-94 | A titled request that misses the cache goes on to generation, with the cache as the read left it. |
| Orchestrator.MethodNotAllowedIff | src/app/api/generate-description/route.js:77-79 | 405 is answered if and only if the method is not POST, and then the state is unchanged. |
| Orchestrator.RateLimitedFirst | src/app/api/generate-description/route.js:81-83 | A refused request gets 429 whatever the body, configuration or provider answer, and nothing is recorded. |
| Orchestrator.MissingTitleRejected | src/app/api/generate-description/route.js:85-86 | A parsed body without a truthy `title` gets 400 whatever the cache, configuration or provider. Only the rate count moves. |
| Orchestrator.CacheHitServed | src/app/api/generate-description/route.js:88-90 | A live, non-empty entry is served as it is, and neither the provider nor the template is consulted. |
| Orchestrator.NoKeyServesTemplate | src/app/api/generate-description/route.js:96-102 | Without a key the template is served and cached (or the request fails with 500 if the template throws). The provider plays no part. |
| Orchestrator.ProviderFailureIff | src/app/api/generate-description/route.js:135-138 | 502 is answered if and only if a configured provider is reached and returns no text. Nothing is cached. |
| Orchestrator.ServerErrorIff | src/app/api/generate-description/route.js:80-153 | 500 is answered if and only if the body does not parse, or a titled miss throws (template, prompt or provider). The rate count and an eviction made before the throw stay as they are. |
| Orchestrator.GeneratedIff | src/app/api/generate-description/route.js:81-149 | The provider's text is served if and only if all of these hold: the request is admitted and titled, the cache has no live non-empty entry, the key is set, the prompt can be built, and the text cleans to something non-empty. |
| Orchestrator.UsableTextServed | src/app/api/generate-description/route.js:81-149 | When those conditions hold, the answer is the cleaned text with the window's remaining quota. The counter is recorded, and the text is cached under the key at the store time, on the cache as the read left it. |
| Orchestrator.GeneratedIsCleanAndCached | src/app/api/generate-description/route.js:140-149 | A generated description is the provider text cleaned, is non-empty, contains no markup and is trimmed. It is cached under the key and reports the window's remaining quota. |
| Orchestrator.EmptyCleanFallsBack | src/app/api/generate-description/route.js:142-146 | Non-empty text that holds only markup and whitespace is answered with `fallbackDescription`'s text for the body. That text is cached under the key at the store instant, on the cache as the read left it. If the template throws, the answer is 500. |
| Orchestrator.CacheWrittenOnlyOnFreshDescription | src/app/api/generate-description/route.js:88-149 | Any outcome other than a fresh description leaves the cache a sub-map of what it was. |
| Orchestrator.Post | src/app/api/generate-description/route.js:76-154 | A request touches only its own identity's counter and its own cache key. For a POST, the counters end as the limiter left them, since nothing after the rate check writes them. A body that is not an object leaves the cache alone. |
| Orchestrator.HandleKeepsNonEmpty | src/app/api/generate-description/route.js:85-149 | Handling keeps every cached description non-empty. |
| Orchestrator.PostPreservesValid | src/app/api/generate-description/route.js:76-149 | Every request keeps counters within `1..20` and the cache free of empty descriptions. |
| Orchestrator.LiveEntryAlwaysServed | src/app/api/generate-description/route.js:89-90 | In a valid state, a live entry is served if and only if it exists: the emptiness guard never fires. |
| Orchestrator.FreshDescriptionCached | src/app/api/generate-description/route.js:99-148 | A description served fresh comes from a titled request, is non-empty and is stored under its key at the store instant. |
| Orchestrator.RepeatServedFromCache | src/app/api/generate-description/route.js:88-149 | An identical request admitted within five minutes of a fresh description is answered from the cache, whatever the provider does. |

## Left out

- The text provider (the Gemini client, the model name, the prompt text) is not modelled. Its result is the `Reply` input: text, no text, or an exception. The one part of prompt construction kept is the throw at line 124, when `features` is a truthy value that is not an array.
- `Intl.NumberFormat` is the parameter `CurrencyFormat`. `None` stands for the constructor throwing. On runtimes that reject `maximumFractionDigits: 0` below USD's minimum of 2 fraction digits it throws a `RangeError`. `EnUsDollars` is one concrete formatter, used in the example listing.
- Fallback.FormatPrice: the locale is always `'en-US'`, as every call in the handler passes it. Other locales are not modelled. Negative zero is not modelled either. `Number("-0")` and the JSON number `-0` are `-0`, which `Intl` writes as `-$0`, but here both read as 0 and are priced like `0`. For the same reason `NumeralPricedAsNumber` does not cover `-0`: `String(-0)` is `"0"`. `Number(s)` also rounds numerals beyond 2^53 to the nearest double before the formatter sees them, and the model passes the exact integer.
- `JSON.stringify(body)` is not computed. The cache key is carried beside the parsed listing in `Body.Object`, so two bodies share a key exactly when their serializations match.
- JSON numbers are integers. Fractional, exponent and non-finite numbers are left out, and so is the fraction rounding `Intl` would apply.
- JsValues.ToText: a number is an unbounded integer, not an IEEE double. The model does not round integers above 2^53 as the runtime does before `${area}`, `${beds || 0}`, `join` or `String(price)` see them. It also writes the decimal numeral where `String` switches to exponent form, from 1e21 up (`"1e+21"`). For safe integers (magnitude at most 2^53 - 1) the two agree.
- JsValues.StringToNumber: `Number(s)` is modelled for the integer-literal part of the numeric string grammar only (surrounding whitespace, an optional sign, decimal digits, and `""` as 0). Hex, binary, octal, exponent, fractional and `Infinity` strings read as NaN here.
- Body fields hold JSON scalars, or an array of scalars for `features`. Nested objects and arrays as field values are left out. A non-object body (`null`, a number, a string, an array) is `NonObject`, since none has a truthy `title`.
- `Date.now()` is the three readings in `Clock`. One is taken in `rateLimit`, one in `getCache` after the body is read, and one in `setCache`, after the provider answers when a key is set.
- Header values are taken as the `Headers` object delivers them. Its own normalization is not modelled: stripping surrounding whitespace and joining repeated headers with `, `.
- Concurrency is not modelled. Requests interleave at `await` points in the source, and the model treats each request as one atomic step.
- Console logging, `process.env` (only whether the key is set to a non-empty value is kept, since line 97 tests `!GEMINI_KEY`), and the `NextResponse` JSON bodies are left out. `Response` names each outcome, and `Status` gives its HTTP status.

## Empty provider text

A falsy `content` is answered with 502 (lines 135-138). With a key set, the template is used only when non-empty text cleans to nothing (lines 142-146); without one it is used directly (lines 96-101). See `Orchestrator.ProviderFailureIff` and `Orchestrator.EmptyCleanFallsBack`.

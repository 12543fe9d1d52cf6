# Verified model of the QSGW request path

A Dafny 4.11 model of the parts of QSGW that decide whether a request is let through and where it
goes: the fixed-window rate limiter, the issue and validation of tokens, API keys, the
authentication and role middlewares, and the gateway's choice of a route and upstream address.

`dafny verify dfyconfig.toml` checks the whole project.

## What is modelled

**Rate limiter** (`RateLimit*.dfy`). A table from key to (count, window start), changed by two kinds
of atomic step, requests and cleanups. `RateLimit.RateLimiter` is the object with its table updated
in place; `run` records the steps taken so far, and `Valid()` ties the table to them, so every
statement about runs holds of every reachable limiter. A run is in lock order; stamps are read
before the lock, so they may be out of order, and `SkewAtMost(run, s)` bounds by how much.

- Cleanup cannot be observed when the skew is at most one window, and with any larger bound it can
  be: `ToleratedSkewIsOneWindow` is the equivalence. Under that bound the shared table behaves as
  one independent counter per key (`KeyIndependence`).
- With N = `RequestsPerWindow`, W = `Window` and skew s <= W, a closed interval of length l serves one
  key at most `Capacity(N, W, s, l)` requests, and for every configuration, s and l a run reaches
  it. Let c be the number of instants more than W apart that fit in an interval of length l + W + s,
  and p the number that fit in one of length l. The figure is c(N - 1) + p, less one when s >= 1,
  N > 1 and l is a multiple of W + 1. For l = W it is 2N - 1, or 3N - 2 once s >= 2.
- The comment in the source calls the limiter a sliding window, which would serve N in a window
  length. With stamps in order that holds if and only if N is 1 (`SlidingWindowOnlyForOne`).
- The Remaining header is an exact forecast, Retry-After of a per-key refusal is enough and
  overshoots by at most one second, and the cap on tracked keys holds in every state.
- The fixed Retry-After of a cap refusal does not say when the key will be served: every
  configuration has a run in which the key waits that long, or as long as one likes, and is turned
  away again (`CapRefusalRepeats`). Its next request is served if and only if more keys were purged
  than newly tracked in between (`CapRetryExactly`).

**Tokens** (`Base64Url.dfy`, `Jwt.dfy`, `Text.dfy`). base64url is concrete, including the library
decoder's habit of skipping CR and LF and of ignoring unused low bits. Acceptance is characterised
exactly, for any text and any token, and the reason given for a refusal is true; created tokens are
accepted exactly during their lifetime.

- That text of length 1 mod 4 is always rejected is false: `"\n"` decodes to no bytes
  (`LoneLineFeedAccepted`). `LengthOneModFour` gives the exact condition.
- A token is still accepted in the second of its expiry, which section 4.1.4 of RFC 7519 excludes,
  and it expires at all if and only if its expiry is positive (`ExpiresExactly`).

**API keys and middlewares** (`ApiKeys.dfy`, `Auth.dfy`). The configuration variable round-trips a
list of entries exactly when each entry can be carried by the format; lookup takes the last match;
the handler behind both middlewares runs exactly for a valid credential with an allowed role.

**Routing** (`Routing.dfy`). The documentation speaks of the longest prefix and of priority; the
code uses priority alone. `PriorityIsLongestPrefixExactly` says for which route lists the two agree
on every path. For a route that strips a prefix starting with `/`, and only for such a route, some
matching path makes the address that is built lose the upstream's host and port as its authority
(`ReachesUpstreamExactly`), and some path makes it name another host (`NamesUpstreamExactly`): a
forwarded path that begins with `@` turns host and port into user information. Whether the client
then accepts the address is outside the model.

Strings are sequences of Unicode characters, that is, valid UTF-8. JSON and HMAC-SHA256 are
parameters (`Jwt.Library`); that JSON text reads back as the object written is the hypothesis
`Faithful`. Clock readings are parameters.

## Model

| member | source | states |
|---|---|---|
| RateLimit.RateLimiter.constructor | shared/go/middleware/ratelimit.go:53-76 | a new limiter has the normalised configuration, an empty table and no steps behind it |
| RateLimit.Normalised | shared/go/middleware/ratelimit.go:27-70 | every positive setting is kept and every other is replaced by the published default, so all settings are positive |
| RateLimit.RateLimiter.Cleanup | shared/go/middleware/ratelimit.go:101-110 | the loop leaves exactly the entries whose window started at most two windows ago, and the object stays tied to its run |
| RateLimit.RateLimiter.Handle | shared/go/middleware/ratelimit.go:115-168 | the locked check and update give the reply and the table of the request step, and the object stays tied to its run |
| RateLimitRefinement.CleanupInvisibleWithinWindow | shared/go/middleware/ratelimit.go:101-148 | with skew at most one window, every request that finds room is answered as by a limiter without cleanup and cap that is not shown the requests turned away for lack of room |
| RateLimitRefinement.EarlyPurgeIsVisible | shared/go/middleware/ratelimit.go:101-136 | for every configuration a run with skew of one nanosecond more than a window is answered differently |
| RateLimitRefinement.ToleratedSkewIsOneWindow | shared/go/middleware/ratelimit.go:105-109 | cleanup is invisible in all runs of skew at most s if and only if s is at most one window |
| RateLimitRefinement.KeyIndependence | shared/go/middleware/ratelimit.go:116-148 | the sequence of responses to one key, cap refusals left out, is that of a stand-alone counter fed only that key's stamps |
| RateLimitBounds.AdmissionBound | shared/go/middleware/ratelimit.go:113-168 | in every run of skew s up to one window, over any interleaving, a key is served at most Capacity(N, W, s, l) times in a closed interval of length l |
| RateLimitBounds.CounterBound | shared/go/middleware/ratelimit.go:123-147 | the same bound for one counter and any skew |
| RateLimitBounds.OneWindowGuarantee | shared/go/middleware/ratelimit.go:113-168 | at most 2N - 1 served in any interval of one window length, 3N - 2 with stamps out of order by two nanoseconds up to one window |
| RateLimitBounds.LongRunGuarantee | shared/go/middleware/ratelimit.go:113-168 | with stamps in order, at most N times l / W rounded up, plus N - 1, in any interval of length l > 0 |
| RateLimitBounds.CapacityFigure | shared/go/middleware/ratelimit.go:113-168 | the capacity as one figure: c(N - 1) + p, less one when there is skew, the length is a multiple of W + 1 and N > 1 |
| RateLimitBounds.SpacedSpan | shared/go/middleware/ratelimit.go:124-135 | the number of window starts, more than a window apart, that fit in an interval of length l, in closed form |
| RateLimitWitness.CapacityAttained | shared/go/middleware/ratelimit.go:113-168 | for every configuration, every skew up to one window and every interval, a run of that skew that serves exactly the capacity |
| RateLimitWitness.SlidingWindowOnlyForOne | shared/go/middleware/ratelimit.go:172-173 | with stamps in order, no run serves more than N in a window length iff N is 1 |
| RateLimitHeaders.CapHolds | shared/go/middleware/ratelimit.go:105-109 | in every state of every run the table tracks at most MaxEntries keys, each with a count of at least one |
| RateLimitHeaders.TurnedAwayChangesNothing | shared/go/middleware/ratelimit.go:124-136 | a request is turned away iff its key is untracked and the table is at its cap, and iff it leaves the table unchanged |
| RateLimitHeaders.HeadersOfEveryResponse | shared/go/middleware/ratelimit.go:129-189 | in every run each response has the configured limit, the window in whole seconds as its reset, a Remaining below the limit, a Retry-After iff it is a refusal, and no Remaining on a refusal |
| RateLimitHeaders.StaysTracked | shared/go/middleware/ratelimit.go:101-136 | a key stays tracked, in its window or a later one, until a cleanup stamped more than two windows after the window's start |
| RateLimitHeaders.NotTurnedAwayForTwoWindows | shared/go/middleware/ratelimit.go:105-136 | with stamps in order, no cap refusal within two windows of a key's latest window start |
| RateLimitHeaders.RemainingForecast | shared/go/middleware/ratelimit.go:143-155 | after Remaining = r, the next r requests of the key in the window are served, the later ones refused, and Remaining counts down to 0 |
| RateLimitHeaders.RemainingForecastInOrder | shared/go/middleware/ratelimit.go:101-155 | with stamps in order the same verdict and Remaining hold for every request stamped in the window, whatever other keys and cleanups do |
| RateLimitHeaders.RetryAfterSuffices | shared/go/middleware/ratelimit.go:123-164 | the wait ends after the window, by one second at most; a next request made after it opens a window and is served unless the key was purged and the table is full |
| RateLimitHeaders.RefusedUntilWindowEnds | shared/go/middleware/ratelimit.go:143-165 | after a refusal, every request of the key stamped within the window is refused |
| RateLimitHeaders.KeysConserved | shared/go/middleware/ratelimit.go:101-136 | between any two points of a run the table changes in size by the keys newly tracked less the keys purged |
| RateLimitHeaders.CapRetryExactly | shared/go/middleware/ratelimit.go:124-136 | after a cap refusal the next request of the key is served iff more keys were purged than newly tracked in between, and turned away otherwise |
| RateLimitHeaders.TurnedAwayUntilCleanup | shared/go/middleware/ratelimit.go:126-133 | after a cap refusal every request of the key before a cleanup gets the same refusal, whatever its stamp |
| RateLimitHeaders.CapRefusalRepeats | shared/go/middleware/ratelimit.go:126-133 | for every configuration, a run with stamps in order in which a key is turned away, told 60 seconds, and turned away again at any chosen stamp 60 seconds later or more |
| Base64Url.RoundTrip | shared/go/middleware/auth.go:335-344 | the decoder undoes the raw and the padded encoding of every byte sequence; the raw length is never 1 mod 4 |
| Base64Url.AlphabetExactly | shared/go/middleware/auth.go:343 | the characters used are those of the 64-character alphabet of section 5 of RFC 4648, each for its position there |
| Base64Url.LineBreaksDropped | shared/go/middleware/auth.go:343 | line breaks are dropped from a text piece by piece |
| Base64Url.LineBreakExactly | shared/go/middleware/auth.go:343 | of single characters CR and LF are dropped, and no other |
| Base64Url.EncodingIsTheOnlyOne | shared/go/middleware/auth.go:375-382 | the encoding is the only text of its length whose base-64 number is the base-256 number of the bytes, shifted by the unused bits |
| Base64Url.DecodeIsInverseOnCanonicalText | shared/go/middleware/auth.go:335-344 | any accepted text, line breaks and padding set aside, writes the number of the decoded bytes and the unused bits after it; encoding them gives the text back iff it has no line breaks or padding and those bits are zero |
| Base64Url.Accepts | shared/go/middleware/auth.go:335-344 | text is decoded iff, without its line breaks and with the padding added by its full length, it is whole groups of four in the alphabet up to one or two closing pad characters |
| Base64Url.LengthOneModFour | shared/go/middleware/auth.go:337-343 | text of length 1 mod 4 is decoded iff it is well padded without its line breaks; never when it has none |
| Base64Url.LoneLineFeedAccepted | shared/go/middleware/auth.go:337-343 | a text of length 1 that is accepted |
| Text.SplitIsUnique | shared/go/middleware/auth.go:238-241 | pieces without separators join to a string iff they are its split |
| Text.PieceCount | shared/go/middleware/auth.go:238-241 | a split has one piece more than there are separators |
| Text.LastCutIsUnique | shared/go/middleware/auth.go:384 | a string is cut at its last separator in one way |
| Jwt.SignedTokenParts | shared/go/middleware/auth.go:375-384 | a signed token splits into exactly the three parts it was made of |
| Jwt.SigningInputUnambiguous | shared/go/middleware/auth.go:266 | equal signing inputs come from equal header and claims parts |
| Jwt.AcceptedExactly | shared/go/middleware/auth.go:237-314 | any token is accepted with given claims iff it is three dot-free pieces, HS256 in the header, the signature over the first two under the secret, claims that read as given and are good now |
| Jwt.RefusalIsTrue | shared/go/middleware/auth.go:237-314 | a token is refused for its format iff it has not exactly two dots; any other reason given is true of its three parts, or of claims that they vouch for |
| Text.NoneSpellings | shared/go/middleware/auth.go:258 | the spellings refused as "none" are the sixteen of upper and lower case |
| Jwt.SigningInputFixesClaims | shared/go/middleware/auth.go:266-289 | two accepted tokens with the same signing input yield the same claims |
| Jwt.SignedTokenAccepted | shared/go/middleware/auth.go:237-314 | a signed token is accepted under its secret iff its claims are good at that second, and yields them |
| Jwt.ClaimsOfCreatedToken | shared/go/middleware/auth.go:355-362 | the claims have the given subject, role and issuer, equal issue and not-before times, and the seconds in which the stamps of issue and expiry fall, given by bounds in nanoseconds |
| Jwt.CreatedTokenParts | shared/go/middleware/auth.go:364-384 | a created token is the header HS256/JWT, those claims and the signature over the first two parts, in that order |
| Jwt.CreatedTokenLifetime | shared/go/middleware/auth.go:353-385 | a created token is accepted iff, in nanoseconds, the second has not ended before the issue and has begun by the expiry, each counted only if a second or more after the epoch, the subject is non-empty and the issuer is not checked or equal |
| Jwt.NonPositiveExpiryNeverExpires | shared/go/middleware/auth.go:294-296 | a token whose expiry is not positive is accepted at every later second, for any admissible issuer |
| Jwt.ExpiresExactly | shared/go/middleware/auth.go:294-296 | a token good but for the time is rejected at all late enough seconds iff its expiry is positive |
| ApiKeys.ParseAPIKeyEntries | shared/go/middleware/helpers.go:7-21 | the loop returns, in order, the entries that have three parts, trimmed |
| ApiKeys.EntryExactly | shared/go/middleware/helpers.go:10-18 | any text is read as a given entry iff it is three parts joined by colons, the first two without one, that trim to the fields of the entry; any other text is skipped |
| ApiKeys.ParsedTextByText | shared/go/middleware/helpers.go:9-20 | a list is read text by text with the order kept: reading two lists in a row gives the one result followed by the other |
| ApiKeys.ParsedAlone | shared/go/middleware/helpers.go:9-20 | one text gives its entry, or nothing if it is no entry |
| ApiKeys.VariableCutAtCommas | control-plane/internal/config/config.go:41-43 | the variable is cut at its commas and nothing else; only an empty one has no texts |
| ApiKeys.VariableRoundTrip | control-plane/internal/config/config.go:41-43 | entries written as key:subject:role joined by commas read back as the same list iff each is trimmed, with no colon in key and subject and no comma at all |
| ApiKeys.ValidateAPIKey | shared/go/middleware/auth.go:318-332 | a key is matched iff some entry has it, and the match is the last such entry |
| Text.TrimSpaceTakesOnlySpace | shared/go/middleware/helpers.go:15-17 | trimming removes white space at the two ends and nothing else |
| Text.SpaceExactly | shared/go/middleware/helpers.go:15-17 | the characters trimmed are the 25 that Unicode calls white space |
| Text.SplitInThree | shared/go/middleware/helpers.go:10-13 | three pieces result iff the text is those pieces joined, with no separator in the first two |
| Auth.SetOf | shared/go/middleware/auth.go:96-99 | the map filled by the loop holds true exactly for the listed strings |
| Text.BearerSpellings | shared/go/middleware/auth.go:134-135 | the scheme for tokens is "bearer" in any mixture of upper and lower case, and nothing else |
| Text.ApiKeySpellings | shared/go/middleware/auth.go:134-153 | the scheme for keys is "apikey" in any mixture of cases, with the two further characters whose lower case is i or k |
| Auth.Identify | shared/go/middleware/auth.go:134-173 | the identity found for a scheme and credential, and the refusal otherwise |
| Auth.Authenticate | shared/go/middleware/auth.go:106-189 | skip paths pass unchanged; elsewhere the next handler runs iff the header presents a valid credential, and reads exactly its subject, role and method from the context |
| Auth.RequireRole | shared/go/middleware/auth.go:195-211 | passes iff the role in the context, empty if absent, is listed |
| Auth.Guarded | shared/go/middleware/auth.go:82-211 | the handler behind both runs iff the credential's role is allowed, with its subject, role and method in the context, 403 iff a valid credential's role is not; on a skip path the context's role decides |
| Auth.OneIdentity | shared/go/middleware/auth.go:119-173 | a header presents at most one identity |
| Auth.IssuedTokenPresents | shared/go/middleware/auth.go:135-151 | an issued token sent as Bearer presents its subject and role exactly during its lifetime |
| Auth.ConfiguredKeyPresents | shared/go/middleware/auth.go:153-168 | a configured key sent as ApiKey presents the last entry written for it, and nothing else |
| Routing.FindsWinner | gateway/src/proxy/mod.rs:52-57 | none iff no healthy route matches; otherwise the last route of greatest priority among the healthy matches, and only that one; the route returned is the one at that position |
| Routing.PriorityIsLongestPrefixExactly | gateway/src/proxy/mod.rs:52-57 | the choice is a longest healthy match on every path iff each healthy route is beaten, for every longer healthy prefix extending its own, by a route with that prefix |
| Routing.StrictPrioritiesSuffice | docs/GATEWAY_CONFIG.md:179 | strictly higher priorities for longer prefixes are enough |
| Routing.DefaultPrioritiesDoNot | db/migrations/000001_init_schema.up.sql:54 | with the default priority throughout, a shorter prefix listed later wins |
| Routing.OrderMattersExactly | gateway/src/proxy/mod.rs:52-57 | reordering never changes the chosen route iff the eligible routes of greatest priority are one and the same |
| Routing.DistinctPrioritiesOrderFree | gateway/src/proxy/mod.rs:52-57 | distinct priorities among matching routes make the order irrelevant |
| Routing.FailOver | gateway/src/proxy/mod.rs:55-56 | losing an unchosen route changes nothing; losing the chosen one leaves the winner among the rest |
| Routing.BuiltAddress | gateway/src/proxy/mod.rs:100-113 | the address is http://, host, colon and decimal port, and what follows, after the stripped prefix if any, is the whole request path |
| Routing.UriTarget | gateway/src/proxy/mod.rs:100-113 | stripping removes the prefix and nothing else; the authority is host:port iff the forwarded path is empty or begins with a character that ends it |
| Routing.PortReadsBack | gateway/src/proxy/mod.rs:110-113 | the port is written as digits, without a leading zero, that read back as the port |
| Routing.ReachesUpstreamExactly | gateway/src/proxy/mod.rs:100-113 | every matching path with a leading slash keeps host:port as the authority iff the route does not strip, or its prefix is empty or does not begin with a slash |
| Routing.HostNamedExactly | gateway/src/proxy/mod.rs:100-113 | the address built names the upstream's host iff the forwarded path brings no @ into the authority, or what follows its last @ names that host |
| Routing.NamesUpstreamExactly | gateway/src/proxy/mod.rs:100-113 | every matching path with a leading slash names the upstream's host, under the same condition on the route |
| Routing.OtherHostNamed | gateway/src/proxy/mod.rs:100-113 | for a stripping route, prefix + @ + name as the path makes the address name that host |

## Left out

- The ticker, the goroutine, `Stop`, key extraction and header writing of the limiter; only the steps they lead to are modelled.
- Machine integers and floating point in the limiter: counts and stamps are unbounded integers, and seconds are integer quotients where the source divides in floating point.
- The limiter's lock: steps are atomic, in lock order.
- HMAC-SHA256, constant-time comparison and JSON syntax: parameters of the model, as above.
- Strings that are not valid UTF-8, in tokens, headers and keys.
- Error texts of the decoder and of JSON, logging, and the bodies of error responses.
- The parse of the built upstream address as a URI, and its error, so which built addresses a client refuses; the query of the original request, which the source drops.
- Request forwarding in the proxy (client, timeout, header changes).
- The cryptography, TLS and type crates, the control plane's handlers and storage, CORS and security headers, pagination, the AI engine and the front ends: single branches, tables or library calls.

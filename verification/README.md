# Placeonix backend: verified model

This project models the parts of the Placeonix backend that hold its rules, and proves what they
promise. The core is the rate limiter, a concurrent protocol over a timed store.

| files | part of the backend |
|---|---|
| `RateLimitMachine`, `RateLimitKeys` | the limiter: Redis counters, the Lua script, the walk over a request's buckets, and all interleavings of many requests |
| `FixedWindow`, `RateLimitHistory`, `RateLimitLimits`, `Serialisability`, `ConfiguredLimiter` | what the limiter promises, how tight that is, and under which configurations |
| `Config`, `Numbers`, `Utf8` | loading the configuration, decimal numbers, byte lengths |
| `Canonical`, `Permissions`, `Headers` | permission lists of tokens and of request headers |
| `Secrets`, `Hexadecimal` | one-time codes and stored hashes |
| `Platform` | file names, object keys, idempotency keys |
| `Sandbox`, `Float` | the judge's docker arguments, with the binary64 division they print |
| `Hosts`, `Tenants` | Host headers, the tenant tables and tenant resolution |
| `Text`, `Wrappers` | string operations, Option and Result |

## The limiter as a protocol

A state holds the store (key to count and optional expiry), the clock in milliseconds, the requests
(each with its buckets, the number charged so far, and its answer) and a log of all increments.
A request arrives, a request charges its next bucket, the clock advances, or the store drops an
expired key; these events come in any order. One charge is one atomic step, because Redis runs a
script to its end before anything else. An entry counts as absent from its expiry on.

Redis refuses an EXPIRE argument beyond its range. The loader accepts every window up to 2^64 - 1
seconds, so the model has a parameter: the largest number of seconds EXPIRE takes. Where EXPIRE is
refused the script has already incremented, the key stays without an expiry, and the request that
opened the counter is answered unavailable. The theorems hold for both kinds of window unless their
row says otherwise; those about reopening say exactly what happens with each. A log counts as let
through what is within the limit, which includes such an opening.

## Where the code does not do what one might expect

- Dots are trimmed only at the very end of a Host value. `edu.` and `edu.:443` are normalised to
  different hosts. `SpellingCollapsesIff` gives the exact condition under which a spelling is
  normalised to its host.
- An accepted rate-limit window may be one that EXPIRE refuses. Then a bucket that has let its limit
  through never reopens.
- The error message for idempotency keys speaks of 128 characters; the code counts bytes. On the keys
  it accepts the two agree (`IdempotencyKeyAccepts`).
- A permission that holds a comma is one claim in a token and two in a header
  (`ClaimsSurviveTheHeader`).

## Model

| member | source | states |
|---|---|---|
| RateLimitMachine.RateLimiter.IncrementBucket | crates/rate-limit/src/lib.rs:105-128 | new store and reply are those of the script: INCR keeps the time to live, EXPIRE only when the count became 1, and a refused EXPIRE fails after the increment |
| RateLimitMachine.RateLimiter.CheckBuckets | crates/rate-limit/src/lib.rs:37-46 | the loop over the buckets leaves the store and gives the answer (admitted, rate limited, unavailable) of a walk that stops at the first exceeded bucket |
| RateLimitHistory.CounterRefinesLog | crates/rate-limit/src/lib.rs:110-127 | in every reachable state of every interleaving a live key's count is the number of logged increments since its generation began; if EXPIRE takes the window its expiry is that beginning plus the window and no key lacks one, else no key has one |
| FixedWindow.GenerationAdmitsFirst | crates/rate-limit/src/lib.rs:38-43 | on one key's hits: the count returned is the number of hits of the generation, and of n hits exactly the first min(n, limit) are let through |
| FixedWindow.SameGeneration | crates/rate-limit/src/lib.rs:112-116 | hits inside one window have consecutive counts and the same beginning |
| RateLimitHistory.GenerationAdmission | crates/rate-limit/src/lib.rs:38-43 | the same for every key in every reachable state, whatever is charged to other keys in between |
| FixedWindow.DeniedStaysDenied | crates/rate-limit/src/lib.rs:38-43 | once a bucket turns a hit away it turns all later hits of that generation away |
| RateLimitHistory.SlidingWindowBound | crates/rate-limit/src/lib.rs:38-43 | in any run from an empty store, whatever the window, any half-open interval of k windows lets at most (k + 1) * limit - 1 charges of one bucket through |
| RateLimitLimits.SlidingBoundIsReached | crates/rate-limit/src/lib.rs:110-118 | if EXPIRE takes the window, for every bucket and every k some run reaches that number exactly, so the bound is sharp |
| RateLimitHistory.PrefixCharging | crates/rate-limit/src/lib.rs:37-46 | in every reachable state a request has charged a prefix of its buckets, each once and in order; all but possibly the last passed; an admitted request charged all, a denied one up to and including its first exceeded bucket |
| RateLimitHistory.WalkIsARun | crates/rate-limit/src/lib.rs:37-46 | the walk that `CheckBuckets` implements, at whatever times its scripts run, is a run of the protocol with the same store and answer, whose hits are logged on its buckets at those times |
| RateLimitHistory.ReapingMakesNoDifference | crates/rate-limit/src/lib.rs:110-127 | when the store drops expired keys makes no difference: without these events every run gives the same answers and log, and counters that nothing can tell apart |
| RateLimitHistory.Conservation | crates/rate-limit/src/lib.rs:37-46 | over any run the final counts of all generations of all keys add up to the lengths of the prefixes charged |
| RateLimitHistory.GuaranteedReopening | crates/rate-limit/src/lib.rs:112-116 | if EXPIRE takes the window, then under any load, denied requests included, the first charge at or after a key's expiry returns 1 and passes |
| RateLimitLimits.ReopensIffExpirable | crates/rate-limit/src/lib.rs:112-116 | a bucket reopens after its window in every run if and only if EXPIRE takes the window |
| RateLimitLimits.RefusedWindowLocksBucket | crates/rate-limit/src/lib.rs:112-116 | if EXPIRE refuses the window, every charge after the first `limit` ones is denied for ever |
| Serialisability.InterleavingIsSerial | crates/rate-limit/src/lib.rs:37-46 | from any store, any complete interleaving of any number of requests while the clock stands gives all requests the answers, and leaves all counters, of one one-at-a-time order: requests left unavailable by a refused EXPIRE at route, at ip, at user, then admitted ones, then those denied at user, at ip, at route |
| Serialisability.SerialOrdersAreThoseInTurn | crates/rate-limit/src/lib.rs:37-46 | an order of those requests gives them their answers if and only if whatever passed a bucket comes before whatever was denied at it, and whatever opened a counter that EXPIRE was refused for comes before whatever else charged it; every such order leaves the same counters |
| Serialisability.SerialIsARun | crates/rate-limit/src/lib.rs:105-128 | the one-at-a-time execution is itself a run of the same protocol, with the same store and answers |
| Serialisability.StepsAreAWalk | crates/rate-limit/src/lib.rs:37-46 | stepping one request to its end without interruption is the walk that `CheckBuckets` implements |
| RateLimitKeys.FromRequest | crates/rate-limit/src/lib.rs:70-93 | the first bucket is the route's, then the address's if it is known, then the user's if x-user-id is sent, and no other; each has its own key prefix, its sanitised text and its own configured limit |
| RateLimitKeys.RequestsAreWellFormed | crates/rate-limit/src/lib.rs:70-93 | a request has one to three buckets of strictly increasing kind with pairwise distinct keys and their kind's limits: what the protocol asks of a request |
| RateLimitKeys.HeadersAreTrimmed | crates/rate-limit/src/lib.rs:137-144 | a header value counts if and only if it is sent as text that is not blank, and then trimmed |
| RateLimitKeys.SanitizedCharacters | crates/rate-limit/src/lib.rs:146-154 | position by position, the listed characters are kept and all others become `_` |
| RateLimitKeys.KeySplitsBack | crates/rate-limit/src/lib.rs:146-154 | every key reads back as its kind and its sanitised text |
| RateLimitKeys.KeysAreSeparate | crates/rate-limit/src/lib.rs:70-93 | two keys are equal if and only if kind and sanitised text are |
| RateLimitKeys.SharedCounters | crates/rate-limit/src/lib.rs:146-154 | two routes, addresses or users share a counter if and only if they have the same length and differ only where both characters are sanitised to `_` |
| RateLimitKeys.OwnCounters | crates/rate-limit/src/lib.rs:146-154 | so different texts of characters that sanitising keeps never share one |
| RateLimitKeys.ChargesStayInTheirKind | crates/rate-limit/src/lib.rs:70-93 | charging a bucket of one kind leaves counters of other kinds as they were |
| RateLimitKeys.ClientIpIsFirstHop | crates/rate-limit/src/lib.rs:130-144 | the address is the trimmed text before the first comma of x-forwarded-for; if that is empty, or the header missing or not text, it is x-real-ip |
| ConfiguredLimiter.ConfiguredBound | crates/config/src/lib.rs:139-172 | for sound limits (which `Config.AcceptedIsSound` gives for every accepted configuration) the sliding bound holds for every route, address and user, in windows of windowSecs seconds |
| ConfiguredLimiter.ConfiguredBoundIsReached | crates/config/src/lib.rs:139-172 | and if EXPIRE takes the window it is reached, for all sound limits, buckets and k |
| ConfiguredLimiter.ConfiguredReopening | crates/config/src/lib.rs:139-172 | for sound limits, hence every accepted configuration, buckets reopen in every run if and only if EXPIRE takes the configured window |
| ConfiguredLimiter.SomeAcceptedWindowLocks | crates/config/src/lib.rs:463-481 | whatever EXPIRE's range below 2^64 - 1, changing only the window of an accepted configuration gives an accepted one whose buckets do not reopen |
| Config.ConfigRoundTrip | crates/config/src/lib.rs:56-242 | a configuration written out as environment variables loads as itself if and only if it is sound |
| Config.AcceptedIsSound | crates/config/src/lib.rs:56-242 | every accepted configuration is sound: positive limits and window, min at most max connections, a 32-byte secret, and so on |
| Config.FirstOffenderIsNamed | crates/config/src/lib.rs:56-242 | for every environment: loading succeeds if and only if the service has a name and every setting meets its rule; otherwise the error is about the first one, in the order of the source, that does not, and says truly what is wrong with it |
| Config.LoadedIsRead | crates/config/src/lib.rs:56-242 | every text of a loaded configuration is the text of its variable, every number the one that the text of its variable stands for |
| Config.MissingNumberHasDefault | crates/config/src/lib.rs:11-36 | a number whose variable is missing has the listed default |
| Config.EnvironmentsByName | crates/config/src/lib.rs:317-329 | the seven names of the four environments, in any case and with whitespace around them, and no others |
| Numbers.ParseOfDec | crates/config/src/lib.rs:463-504 | a printed number parses back if and only if the unsigned type can hold it |
| Numbers.ParseUnsignedAccepts | crates/config/src/lib.rs:463-504 | exactly the digit strings of numbers that fit are parsed, leading zeros and one `+` allowed |
| Canonical.BelowIsByteOrder | crates/auth/src/lib.rs:280-289 | the order of characters that the lists are sorted by is the order of the UTF-8 bytes, which `str` compares |
| Canonical.Sort | crates/rbac/src/lib.rs:18-26 | sorting in place leaves the same strings, in order |
| Canonical.DedupInPlace | crates/rbac/src/lib.rs:18-26 | dropping adjacent repetitions in place |
| Canonical.SortUniqueIsCanonical | crates/auth/src/lib.rs:280-289 | the canonical list is strictly increasing and holds exactly the given strings |
| Canonical.SameElementsSameList | crates/auth/src/lib.rs:280-289 | two lists have the same canonical list if and only if they hold the same strings |
| Permissions.SortedUnique | crates/auth/src/lib.rs:280-289 | trim, filter, sort and dedup give the canonical list of the trimmed, non-empty values |
| Permissions.ClaimsAreCanonical | crates/auth/src/lib.rs:92-93 | a token's claims are strictly increasing and are exactly the trimmed, non-empty inputs |
| Permissions.ClaimsDependOnTheSet | crates/auth/src/lib.rs:280-289 | two inputs give the same claims if and only if they hold the same trimmed, non-empty strings |
| Permissions.MakePrincipal | crates/rbac/src/lib.rs:18-26 | a principal holds the given user and the canonical list of the permissions, untrimmed: increasing, the same strings |
| Permissions.ClaimsAreStable | crates/auth/src/lib.rs:280-289 | claims are left as they are by `sorted_unique` and by `Principal::new` |
| Permissions.HeaderRoundTrip | crates/rbac/src/lib.rs:109-115 | for every header value, joining the parsed principal's permissions and parsing again gives the same principal |
| Permissions.ClaimsSurviveTheHeader | crates/rbac/src/lib.rs:109-115 | claims sent as a header come back the same if and only if no value they were made of holds a comma |
| Permissions.SatisfiedIsInclusion | crates/rbac/src/lib.rs:83-87 | a requirement is met if and only if it is included in the permissions given, whatever their order and repetition |
| Permissions.SatisfiedIsMonotone | crates/rbac/src/lib.rs:83-87 | more permissions never turn an accepted request away |
| Permissions.EnforceDecides | crates/rbac/src/lib.rs:90-107 | with headers alone a request gets through if and only if its permissions header is text that names all required permissions and its user id, if sent, is a UUID |
| Permissions.EnforcedPrincipal | crates/rbac/src/lib.rs:28-50 | who gets through on headers alone carries the user of x-user-id, none if it is not sent, and exactly the permissions of x-permissions, increasing |
| Permissions.ParsedPermissions | crates/rbac/src/lib.rs:109-115 | these are exactly the trimmed, non-empty texts between the commas |
| Permissions.KnownPrincipalIsTaken | crates/rbac/src/lib.rs:90-107 | a principal left by an earlier layer is decided on and kept as it is, whatever the headers |
| Permissions.EnforceErrors | crates/rbac/src/lib.rs:28-107 | which error a request without a known principal gets, for each way of being turned away |
| Hexadecimal.UnhexOfHex | crates/auth/src/lib.rs:262-270 | hexadecimal text of any byte string reads back |
| Hexadecimal.HexShape | crates/auth/src/lib.rs:262-270 | n bytes give 2n hexadecimal characters |
| Secrets.HashSecret | crates/auth/src/lib.rs:262-270 | the loop prints 64 characters that read back as the digest of the secret's bytes |
| Secrets.VerifyComparesDigests | crates/auth/src/lib.rs:154-156 | verification succeeds if and only if the digests agree |
| Secrets.VerifyAcceptsOnlyCollisions | crates/auth/src/lib.rs:151-156 | a candidate passes if and only if it is the code or collides with it |
| Secrets.FromCodeAccepts | crates/auth/src/lib.rs:175-181 | the accepted codes are exactly the zero-padded prints of the numbers below a million |
| Secrets.CodesAreDistinct | crates/auth/src/lib.rs:166-173 | different numbers below a million print differently |
| Secrets.GeneratedCodesAreTheAcceptedOnes | crates/auth/src/lib.rs:166-181 | a generated code is six digits with the value of the random number modulo a million, is accepted and verifies against its hash; and every accepted code can be generated |
| Platform.SafeFilenameIsStripped | crates/platform/src/lib.rs:233-254 | the result is a function of the mapped and dash-stripped untrimmed name; trimming first only decides which error is given |
| Platform.SafeFilenameIsANormalForm | crates/platform/src/lib.rs:233-254 | results are exactly the names that sanitising leaves as they are |
| Platform.SafeFilenameIsIdempotent | crates/platform/src/lib.rs:233-254 | sanitising twice is sanitising once |
| Platform.FileCharacters | crates/platform/src/lib.rs:239-245 | the listed characters are kept and all others become dashes |
| Platform.ObjectKeySplitsBack | crates/platform/src/lib.rs:195-206 | tenant, domain, owner, object and sanitised name are read back from every key |
| Platform.DomainsAreNamed | crates/platform/src/lib.rs:177-193 | evidence keys carry `evidence`, attachment keys `attachments`, in the second place |
| Platform.ObjectKeyErrors | crates/platform/src/lib.rs:195-206 | a key is refused if and only if nothing but dots, or nothing, is left of the name, with the complaint of sanitising |
| Platform.ObjectKeysAreSeparate | crates/platform/src/lib.rs:177-206 | two keys coincide if and only if tenant, domain, owner and object are the same and the names sanitise alike |
| Platform.UuidTextIsInjective | crates/platform/src/lib.rs:204 | the 36-character text of a UUID determines it |
| Platform.UuidTextReadsBack | crates/platform/src/lib.rs:204 | hyphens after 8, 12, 16 and 20 hexadecimal digits, which read back as the 16 bytes in order |
| Platform.IdempotencyKeyAccepts | crates/platform/src/lib.rs:14-36 | a value gives a key if and only if the key is its trimmed form and has 1 to 128 allowed characters |
| Platform.IdempotencyKeyIsANormalForm | crates/platform/src/lib.rs:14-36 | parsing a parsed key gives it back |
| Platform.IdempotencyCharacters | crates/platform/src/lib.rs:28-31 | the allowed characters |
| Platform.IdempotencyKeyErrors | crates/platform/src/lib.rs:14-36 | which complaint a rejected value gets |
| Sandbox.DockerArgs | crates/worker-core/src/lib.rs:170-187 | the vector has the fixed options in their places, and runtime, limits, image and the whole command are read back from it |
| Sandbox.ArgsReadBack | crates/worker-core/src/lib.rs:144-187 | runtime, isolation flags, CPU and memory limits, image and the whole command of every command built by `new` are read back from its arguments |
| Sandbox.NewAccepts | crates/worker-core/src/lib.rs:111-168 | a command is accepted if and only if runtime and image are not blank, the network is off, the root file system read-only, the three limits positive and the command not empty; it is then kept as given |
| Sandbox.ArgsAreConfined | crates/worker-core/src/lib.rs:111-187 | so the arguments of every accepted command switch the network off, make the root file system read-only and carry positive CPU and memory limits |
| Sandbox.NewErrors | crates/worker-core/src/lib.rs:111-168 | which rule a rejected command is told it breaks |
| Sandbox.ArgsDetermineCommand | crates/worker-core/src/lib.rs:144-187 | two commands have equal arguments if and only if they differ at most in the time and output limits |
| Float.QuotientIsNearest | crates/worker-core/src/lib.rs:180 | the modelled quotient is a binary64 number and none is nearer to cpu_millis / 1000 |
| Float.QuotientPrintsExactly | crates/worker-core/src/lib.rs:180 | for every u32 the quotient printed to three decimals is the number with its point moved three places |
| Hosts.SpellingNormalizes | crates/tenant/src/lib.rs:193-206 | any casing of a host, with or without a port, with dots and whitespace at the end, is normalised to the host, followed by the dots that stand before a port |
| Hosts.SpellingCollapsesIff | crates/tenant/src/lib.rs:193-206 | a spelling is normalised to its host if and only if it has no port or no dots before the port |
| Hosts.DottedNameWithPort | crates/tenant/src/lib.rs:193-206 | a concrete name whose spellings with and without a port are normalised differently |
| Hosts.NormalizeFixesCanonical | crates/tenant/src/lib.rs:193-206 | the hosts left as they are, are exactly the canonical ones |
| Hosts.CaseIsIgnored | crates/tenant/src/lib.rs:193-206 | values that differ only in the case of ASCII letters are normalised alike |
| Hosts.NormalizedHosts | crates/tenant/src/lib.rs:193-206 | a normalised host is not empty and has no upper-case ASCII letter and no whitespace at its ends |
| Hosts.LastColonDecides | crates/tenant/src/lib.rs:193-206 | however many colons a value has, what stands before the last one, trimmed and in lower case, is the host, if anything is left |
| Tenants.ReachedMeetsConstraints | migrations/control/0001_control_plane.sql:5-47 | every state reached by statements that the indexes let through, soft deletes and cascading deletes included, meets the unique indexes, the foreign key, the status check and the checks that slugs and domains are not blank |
| Tenants.AcceptedIffConstraintsKept | migrations/control/0001_control_plane.sql:5-47 | the database lets a statement through if and only if what it writes meets the constraints |
| Tenants.OtherRowsStay | migrations/control/0001_control_plane.sql:29-43 | a statement changes the row it names and, when it drops a tenant, removes exactly that tenant's domains |
| Tenants.StatusRoundTrip | crates/tenant/src/lib.rs:63-83 | reading and writing a status undo each other, and the program knows exactly the statuses that the schema allows |
| Tenants.HostMatchesAtMostOneRow | crates/tenant/src/lib.rs:167-183 | at most one row matches a host in every reached state |
| Tenants.ResolutionIsAFunction | crates/tenant/src/lib.rs:20-43 | the answer does not depend on which row the database returns first |
| Tenants.ResolvesExactlyActiveTenants | crates/tenant/src/lib.rs:20-43 | a request is resolved to a tenant if and only if its target names it, undeleted and active; the context carries that tenant's slug and whether the header or the host named it; the status is never invalid |
| Tenants.ResolveErrors | crates/tenant/src/lib.rs:20-43 | a request is otherwise told what is wrong with its headers, or not found if its target names no tenant, or forbidden if it names one that is not active |
| Tenants.TargetsAreRead | crates/tenant/src/lib.rs:115-132 | a tenant id header decides alone, and must be a UUID; only without one does the Host header decide |
| Tenants.SpellingsResolveAlike | crates/tenant/src/lib.rs:115-132 | without a tenant id header two spellings of a host name the same target if and only if they keep as many dots before a port, and then are resolved alike |
| Tenants.AddedDomainResolves | crates/tenant/src/lib.rs:167-183 | once the database accepts a live domain of an active tenant, requests for that host are resolved to that tenant |
| Tenants.RemovedTenantDoesNotResolve | crates/tenant/src/lib.rs:20-43 | after a tenant is deleted, softly or for good, no request is resolved to it through any later statements, until one puts it there undeleted |
| Tenants.RemovedDomainDoesNotResolve | crates/tenant/src/lib.rs:167-183 | after a host's domain is deleted, softly or for good, requests for the host find no tenant through any later statements, until one puts a live domain of that name there |

## Left out

- Serialisability.InterleavingIsSerial: is about runs in which the clock does not move; nothing is claimed for runs across a window's end.
- RateLimitMachine.RateLimiter.IncrementBucket: does not model a lost Redis connection (the request then fails closed) nor INCR overflowing 2^63.
- RateLimitMachine.RateLimiter.CheckBuckets: takes the times of its script runs as an argument; interference by other requests is modelled by the events, not in the class.
- RateLimitLimits.ReopensIffExpirable: that EXPIRE refuses large arguments, and which, is a fact about Redis that the model takes as a parameter.
- Canonical.Sort: the library's sort is modelled by an insertion sort; only its contract matters, as equal strings cannot be told apart.
- Hosts.SpellingCollapsesIff: is about hosts without colons; values with further colons, such as bare IPv6 addresses, are covered by `LastColonDecides` only.
- Secrets.VerifyAcceptsOnlyCollisions: SHA-256 is any function to 32 bytes; how hard collisions are to find is not modelled.
- Config.MissingNumberHasDefault: the default addresses, URLs, names and secrets are listed in the model, but nothing more is stated about them.
- Config.ConfigRoundTrip: what a URL and a socket address are is decided by parameters; variable names and error texts are enumerations.
- Tenants.ReachedMeetsConstraints: each statement runs alone; transactions and the columns that resolution does not read are not modelled. SQL's lower() is any function.
- UUID parsing is a parameter; printing is modelled.
- Header maps hold the first value of each name, as text or as bytes that are not visible ASCII.
- Password hashing, token signing, refresh tokens, page limits, job envelopes, the proctor score table, audit and telemetry: libraries, I/O or finite lookups.
- HTTP routing, middleware order and the placeholder handlers: no state or algorithm of their own.

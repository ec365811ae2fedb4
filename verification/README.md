# Verified model of the PGP authentication module for nginx

The module protects nginx locations with PGP signatures. A client gets a one-time
challenge, signs it, and submits the signed text; gpg checks the signature, the
challenge is recognised by its MAC and consumed once, and the client receives a
MAC'd session cookie. Failed submissions are counted per client address.

This project models the stateful logic under the nginx plumbing and proves what it
keeps over whole runs. Check it with `dafny verify dfyconfig.toml`.

| module | what it models |
|---|---|
| `ByteStrings` | bytes, `ngx_strlchr`, `ngx_atotm`, decimal printing, splitting |
| `OrderedIndex` | the search tree ordered by (hash, length, bytes) |
| `SharedStore` | a shared-memory zone: tree and insertion-order queue over one set of nodes |
| `NonceStore`, `NonceFleet` | single-use nonces: the memory zone, the Redis verdict, and a fleet of nodes sharing one Redis |
| `Throttle`, `ThrottleRuns` | the per-address failure throttle and its whole runs |
| `Config` | inheritance and bounding of the numeric lifetimes |
| `Form` | the in-place form decoder |
| `GpgStatus` | the parse of gpg's status output |
| `Revocation` | the revocation list scanner and its per-worker cache |
| `Tokens` | MAC framing, challenges and session cookies |
| `Login` | one submission: both verification orders, thread completion, throttle accounting |
| `Readings` | every way one MAC input can be cut into fields |
| `AuthRun` | whole runs of the module on any number of nodes |
| `ListedKeys` | those runs with the verdicts of a worker's revocation cache |
| `AuthExact` | the runs in which the module accepts a second reading, and the exact conditions they give |

## How things are modelled

- Time is an integer clock. HMAC is an arbitrary function from secret and message to
  64 hexadecimal digits. Where forging must be excluded, a presented tag that is
  right under an accepted secret is taken to be one the module itself made.
- The shared-memory allocator, HMAC, file operations, thread posting and Redis
  exchanges may succeed or fail at any moment; each outcome is an input.
- The hash (crc32), the red-black rebalancing and the unlinking of a node are
  parameters of a zone: any function, any reshaping that keeps the in-order sequence,
  and any removal that takes just that key out of it (`OrderedIndex.SomeUnlink` gives one).
- The tree and queue code of the throttle (src/ngx_http_pgp_auth_throttle.c:38-108) is
  that of the nonce zone with another payload, so `OrderedIndex` and `SharedStore` are
  shared by both.
- A zone's critical sections are atomic. The Redis protocol is not: the local check,
  the execution of `SET NX EX`, and the arrival of the reply are separate steps, and a
  `SET` may run after its client has given up. A pool login is three steps (posted,
  judged by the thread, finished by the worker) between which anything may happen.
- In `AuthRun` locations, zones and Redis servers are numbered, so that one run covers a
  fleet; every location has its own backend, zone, Redis and key prefix. A number stands
  for one life of a zone or server: a restart, or a Redis that loses keys, is a new number
  with any contents. Locations have lifetimes the merge can give them, and which bytes can
  be a keyring path, a client address or a User-Agent is a parameter of the run.
- The revocation verdicts of a step are those of the worker that takes it: a parameter of
  the step in `AuthRun`, the answers of a cache in `ListedKeys`.
- Integers are unbounded except where the code bounds them: parsed times stay within
  a 64-bit `time_t`, and issued expiries are assumed to.

## Where the code and its documentation differ

The model follows the code.

- The failure window is called a sliding window. It is a tumbling one, anchored at
  its first failure, so `2*limit - 3` failures within two seconds can go unbanned
  (`ThrottleRuns.TightRun`), but `max(1, 2*limit - 2)` within a window cannot.
- The comment at src/ngx_http_pgp_auth_module.c:2384-2390 says the local zone keeps
  enforcing single use while Redis is unreachable. The code denies the login instead.
- A nonce is said to be recorded until its expiry. In the memory zone it can be
  reclaimed in the very second of its expiry, in which the challenge is still
  accepted: single use holds before the expiry second (`NonceStore.MemorySingleUse`),
  fails in it for a concrete run (`NonceStore.BoundarySecondReplay`), and
  `NonceStore.RunRefusesExactly` gives the exact condition over runs. With Redis the
  expiry second is refused outright.
- The layout comment above the MAC function omits the keyring path, which the code
  puts second.
- A comment asks for a real fingerprint, but a signature can be valid with an empty one:
  `good` is sticky while the fingerprint follows the last VALIDSIG line.
  `GpgStatus.StatusMeans` says exactly when, `GpgStatus.ValidWithoutFingerprint` gives the
  inputs, and `AuthExact.UnrevocableSession` the run: no revocation list ends that session.
- The MAC is meant to bind a token to keyring and client. Its fields are joined by 0x1e
  bytes, which a User-Agent may hold, so one MAC input can be read in two ways. A client
  can keep the session of a revoked key (`AuthExact.RevokedKeyKeepsSession`) and use one
  challenge twice (`AuthExact.ChallengeUsedTwice`). `AuthExact.AccessCoveredExactly`,
  `AuthExact.LoginAnswersExactly` and `AuthExact.OneSessionExactly` say for which MAC
  inputs the promises hold; inputs without 0x1e are among them (`Readings.SepFreeNoOther`,
  `Readings.SepFreeNoOtherChallenge`, `Readings.SepFreeNoOtherUse`).

## Model

| member | source | states |
|---|---|---|
| `ByteStrings.ParseTimeMeans` | src/ngx_http_pgp_auth_module.c:1074-1080 | a time is read off a non-empty string of decimal digits that denotes at most 2^63 - 1, and off nothing else |
| `OrderedIndex.FirstDifferenceDecides` | src/ngx_http_pgp_auth_nonce.c:56-74 | hash, then length, then the first differing byte decides the order |
| `OrderedIndex.BeforeTotal` | src/ngx_http_pgp_auth_nonce.c:56-74 | the node order is strict and total for every hash function, constant ones included |
| `OrderedIndex.Lookup` | src/ngx_http_pgp_auth_nonce.c:89-120 | in an ordered tree the descent succeeds exactly for the stored keys |
| `OrderedIndex.InsertNode` | src/ngx_http_pgp_auth_nonce.c:49-86 | the descent loop hangs the node where the recursive insertion of the order does |
| `OrderedIndex.InsertKeeps` | src/ngx_http_pgp_auth_nonce.c:49-86 | inserting a new key keeps the tree strictly ordered and adds that key only |
| `OrderedIndex.UnlinkKeeps` | src/ngx_http_pgp_auth_nonce.c:138-140 | any removal of a key from the in-order sequence keeps the tree strictly ordered and removes that key only |
| `OrderedIndex.OrderedIsSorted` | src/ngx_http_pgp_auth_nonce.c:49-86 | a tree is ordered iff its in-order sequence is strictly sorted |
| `OrderedIndex.ReshapeKeeps` | src/ngx_http_pgp_auth_nonce.c:213-214 | any in-order-preserving rebalancing keeps keys and order |
| `SharedStore.Zone.constructor` | src/ngx_http_pgp_auth_nonce.c:221-254 | a new zone is empty, its tree and queue in agreement |
| `SharedStore.Zone.Contains` | src/ngx_http_pgp_auth_nonce.c:89-120 | searching the tree agrees with the plain list of queued nodes |
| `SharedStore.Zone.InsertHead` | src/ngx_http_pgp_auth_nonce.c:208-214 | linking a node puts it at the queue head and keeps tree and queue over the same distinct nodes |
| `SharedStore.Zone.Remove` | src/ngx_http_pgp_auth_nonce.c:138-140 | freeing a node takes it out of both structures and leaves the rest in order |
| `SharedStore.Zone.RefreshHead` | src/ngx_http_pgp_auth_throttle.c:270-282 | moving a node to the head with a new payload keeps the node set and the others' order |
| `NonceStore.Evict` | src/ngx_http_pgp_auth_nonce.c:123-142 | the loop leaves what dropping at most `max` expired nodes from the old end leaves |
| `NonceStore.EvictKeepsExactly` | src/ngx_http_pgp_auth_nonce.c:130-142 | a node survives iff it is beyond the bound or an unexpired node is at or behind it |
| `NonceStore.Memory` | src/ngx_http_pgp_auth_nonce.c:145-218 | the new zone and the code are those of the single-use step, over-long nonces and a full zone included |
| `NonceStore.MemoryKeepsLive` | src/ngx_http_pgp_auth_nonce.c:176-206 | no call drops an unexpired nonce, an accepted one is kept until its expiry, and a kept one is refused |
| `NonceStore.NewNonceReclaims` | src/ngx_http_pgp_auth_nonce.c:176-214 | a call for a new nonce reclaims an expired node iff it is among the 8 oldest, or the 520 oldest in a full zone, and no unexpired one is behind it, and puts the new node at the head |
| `NonceStore.MemorySingleUse` | src/ngx_http_pgp_auth_nonce.c:123-218 | in every run, after an accepted nonce with expiry e every later call with it before e is a replay |
| `NonceStore.RunRefusesExactly` | src/ngx_http_pgp_auth_nonce.c:123-218 | in every run and at any clock value a call is refused as a replay iff the zone holds its nonce where the eviction before it spares it |
| `NonceStore.ExpirySecondDecided` | src/ngx_http_pgp_auth_nonce.c:134-181 | after an acceptance with expiry e the nonce is still held at now == e, and the zone around it decides whether it is refused |
| `NonceStore.BoundarySecondReplay` | src/ngx_http_pgp_auth_nonce.c:134-136 | at now == exp two calls with one nonce can both be accepted |
| `NonceStore.SetFitsShorter` | src/ngx_http_pgp_auth_nonce.c:500-636 | a SET command that fits its 512-byte buffer still does with the empty prefix and a shorter lifetime |
| `NonceStore.SetCommandReads` | src/ngx_http_pgp_auth_nonce.c:625-634 | whatever bytes prefix and nonce hold, Redis reads the command as SET key 1 NX EX ttl and nothing more |
| `NonceStore.SetCommandLength` | src/ngx_http_pgp_auth_nonce.c:505-634 | the command fits its buffer iff it has at most 512 bytes |
| `NonceStore.SetFitsUpTo` | src/ngx_http_pgp_auth_nonce.c:505-634 | with the empty prefix and a one-digit lifetime exactly the nonces of at most 461 bytes fit |
| `NonceStore.VerdictTable` | src/ngx_http_pgp_auth_nonce.c:145-742 | the exact verdict of every backend for every call: accepted, replay, or no answer, by what the zone holds, whether it has room, and what Redis said |
| `NonceStore.RedisModeRejectOnly` | src/ngx_http_pgp_auth_nonce.c:688-737 | NGX_OK needs Redis's "+" on this call and an unexpired nonce; a locally live nonce is refused; an outage is an error, never a replay |
| `NonceStore.CheckAndSet` | src/ngx_http_pgp_auth_nonce.c:677-742 | zone and code follow the precedence of the two stores, for all three backends and a missing zone |
| `NonceFleet.PhasesMatchCheckAndSet` | src/ngx_http_pgp_auth_nonce.c:719-737 | the separate phases of a fleet call add up to the sequential check-and-set |
| `NonceFleet.StepKeepsRecorded` | src/ngx_http_pgp_auth_nonce.c:719-726 | every step keeps each recorded nonce in its node's zone until it expires or the node restarts |
| `NonceFleet.StepKeepsLaterRefused` | src/ngx_http_pgp_auth_nonce.c:719-726 | every step keeps that calls after a recording one at the same node were refused locally |
| `NonceFleet.FleetRejectOnly` | src/ngx_http_pgp_auth_nonce.c:652-661 | in every run, even if Redis loses keys at any moment: NGX_OK means Redis said "+" on that call, and no later call at a node that recorded the nonce is accepted before the expiry |
| `NonceFleet.DeliveredVerdict` | src/ngx_http_pgp_auth_nonce.c:638-661 | in every run a delivered reply closes the call as accepted if its SET won and as a replay if it lost, a failure closes it with an error, and nothing else is called a replay than a lost SET, a local refusal or an expired call |
| `NonceFleet.StepKeepsApart` | src/ngx_http_pgp_auth_nonce.c:635-661 | every step keeps that of two winning SETs for one nonce one ran at or after the deadline of the other |
| `NonceFleet.FleetAtMostOnce` | src/ngx_http_pgp_auth_nonce.c:511-514 | over any nodes, outages, lost replies, late SETs and restarts, two calls with one nonce and any expiries both accepted implies one SET ran at or after the other call's expiry |
| `NonceFleet.SetWinsExactly` | src/ngx_http_pgp_auth_nonce.c:628-661 | in every run without key loss a SET wins iff it runs at or after the deadline of every earlier winner with its nonce |
| `Throttle.Evict` | src/ngx_http_pgp_auth_throttle.c:121-145 | the walk removes exactly the stale nodes among the `max` oldest |
| `Throttle.EvictFinds` | src/ngx_http_pgp_auth_throttle.c:129-144 | a lookup after eviction gives the same record, or nothing where the record was stale |
| `Throttle.EvictKeepsExactly` | src/ngx_http_pgp_auth_throttle.c:121-145 | a node survives an eviction iff it is beyond the bound, banned, or its window or an hour has not passed |
| `Throttle.UnkeyableIgnored` | src/ngx_http_pgp_auth_throttle.c:174-215 | an empty address or one of more than 65535 bytes is never recorded nor banned, and every other one is |
| `Throttle.CountFailure` | src/ngx_http_pgp_auth_throttle.c:275-291 | window roll-over, count and ban of one failure |
| `Throttle.Record` | src/ngx_http_pgp_auth_throttle.c:196-294 | the new zone is that of the accounting step: success clears, failure counts, a full zone skips |
| `Throttle.IsBanned` | src/ngx_http_pgp_auth_throttle.c:160-193 | true iff a zone exists and the keyable address has a record banned beyond now |
| `Throttle.RecordEffect` | src/ngx_http_pgp_auth_throttle.c:222-291 | an outcome bumps or clears its own address's record; another's is kept, or forgotten only if stale |
| `ThrottleRuns.EvictionUnobservable` | src/ngx_http_pgp_auth_throttle.c:121-294 | while new addresses find room, every ban answer and count equals that of an unbounded per-address map, for any windows fitting one horizon |
| `ThrottleRuns.ConfiguredEvictionUnobservable` | src/ngx_http_pgp_auth_module.c:2223-2236 | the same for every configuration, because the merge forces each active window into 1..3600 |
| `ThrottleRuns.WiderWindowsObservable` | src/ngx_http_pgp_auth_throttle.c:129-138 | any two windows w > max(v, 3600) give a run in which eviction changes a count and a ban |
| `ThrottleRuns.BanWithinBound` | src/ngx_http_pgp_auth_throttle.c:275-286 | from any record, max(1, 2*limit - 2) failures within less than a window include one that bans |
| `ThrottleRuns.RunTriggersBan` | src/ngx_http_pgp_auth_throttle.c:261-291 | the same for the evicting store after any past, other addresses interleaved |
| `ThrottleRuns.TightRun` | src/ngx_http_pgp_auth_throttle.c:275-286 | the bound is tight: a run of the store with 2*limit - 3 such failures and no ban |
| `ThrottleRuns.NoUnjustifiedBan` | src/ngx_http_pgp_auth_throttle.c:160-291 | in every multi-address run a refused check has, less than the ban time ago, `limit` recorded failures in a row of that address within a window, and no success of it since |
| `ThrottleRuns.BanLasts` | src/ngx_http_pgp_auth_throttle.c:284-286 | after the limit is reached every check within the ban time is refused, unless the address succeeds |
| `Config.LocConf.constructor` | src/ngx_http_pgp_auth_module.c:1977-2011 | every field starts at its unset sentinel and no zone is attached |
| `Config.LocConf.MergeTimeouts` | src/ngx_http_pgp_auth_module.c:2151-2172 | challenge, session and gpg timeouts after inheritance and clamping |
| `Config.LocConf.MergeThrottle` | src/ngx_http_pgp_auth_module.c:2194-2236 | limit, window and ban time after inheritance, bounded only where the throttle is on |
| `Config.LocConf.Merge` | src/ngx_http_pgp_auth_module.c:2140-2267 | the child's whole numeric state after one merge, and whether a throttle zone is attached |
| `Config.ChainCarries` | src/ngx_http_pgp_auth_module.c:2194-2236 | along any chain of blocks each level hands down the nearest written value, raw or already bounded |
| `Config.EffectiveLifetimes` | src/ngx_http_pgp_auth_module.c:2151-2267 | at any depth each lifetime is its bound applied to the nearest written value or the default and lies in its documented range; the session bound is 30 days with 0 left alone, the challenge bound 5 seconds to an hour |
| `Config.LifetimesExactly` | src/ngx_http_pgp_auth_module.c:2151-2206 | a location can get exactly the challenge lifetimes 5..3600 and the session lifetimes 0..2592000 |
| `Form.ReadByte` | src/ngx_http_pgp_auth_module.c:1605-1621 | one turn reads '+', a full escape, or a literal byte |
| `Form.DecodeInPlace` | src/ngx_http_pgp_auth_module.c:1598-1623 | despite aliasing the result is the decoding of the original bytes, and the rest of the buffer is untouched |
| `Form.DecodeField` | src/ngx_http_pgp_auth_module.c:1586-1625 | found iff the body starts with "signed="; otherwise nothing changes |
| `Form.DecodeInvertsEncoding` | src/ngx_http_pgp_auth_module.c:1576-1625 | every legal encoding of a byte string decodes to it, with or without a following field |
| `Form.EveryValueEncodable` | src/ngx_http_pgp_auth_module.c:1576-1580 | every byte string has a legal encoding |
| `Form.EscapeDecodes` | src/ngx_http_pgp_auth_module.c:1605-1621 | every byte, escaped with digits of either case, decodes to itself |
| `GpgStatus.FprIsHex` | src/ngx_http_pgp_auth_gpg.c:118-135 | true iff at least 32 bytes and all hexadecimal |
| `GpgStatus.CopyField` | src/ngx_http_pgp_auth_gpg.c:517-524 | the copied fingerprint is the field at that place, cut at 79 bytes |
| `GpgStatus.LastToken` | src/ngx_http_pgp_auth_gpg.c:509-515 | the token loop ends at the last field of the line |
| `GpgStatus.LineFprIsLastElseFirst` | src/ngx_http_pgp_auth_gpg.c:497-551 | the signer is the last space-separated field if usable, else the first if usable |
| `GpgStatus.ReadLine` | src/ngx_http_pgp_auth_gpg.c:487-560 | one line sets `good`, `bad` and the fingerprint as its marker says |
| `GpgStatus.ParseStatus` | src/ngx_http_pgp_auth_gpg.c:475-571 | the tokenising loop computes the scan of all lines up to the first NUL, and truncated output is invalid |
| `GpgStatus.StatusMeans` | src/ngx_http_pgp_auth_gpg.c:475-571 | valid iff whole, some VALIDSIG line is usable and no failure marker occurs; the fingerprint is the last VALIDSIG line's, empty or 32..79 hexadecimal digits |
| `GpgStatus.StatusSpelledOut` | src/ngx_http_pgp_auth_gpg.c:475-571 | with every marker written out: valid iff whole, some VALIDSIG line identifies a key, and no line reports a revoked or expired key or an expired, bad or unverifiable signature |
| `GpgStatus.SignerSpelledOut` | src/ngx_http_pgp_auth_gpg.c:497-551 | the signer of a VALIDSIG line is its last field, or else its first, if at least 32 bytes and hexadecimal, cut to 79 |
| `GpgStatus.UsableOutput` | src/ngx_http_pgp_auth_gpg.c:497-571 | one VALIDSIG line with a usable fingerprint is valid with that fingerprint |
| `GpgStatus.ValidWithoutFingerprint` | src/ngx_http_pgp_auth_gpg.c:462-571 | a usable VALIDSIG line and then an unusable one: valid with an empty fingerprint |
| `GpgStatus.ValidityIgnoresOrder` | src/ngx_http_pgp_auth_gpg.c:483-568 | outputs with the same lines in any order have the same validity |
| `Revocation.FprEq` | src/ngx_http_pgp_auth_module.c:609-625 | equal iff the entry without blanks and the fingerprint agree up to case |
| `Revocation.LineLists` | src/ngx_http_pgp_auth_module.c:738-745 | a line lists the fingerprint iff, blanks and case aside, it is no comment and equals it |
| `Revocation.PlainLineLists` | src/ngx_http_pgp_auth_module.c:609-625 | a line without blanks lists a fingerprint iff it is no comment and agrees with it letter by letter in either case |
| `Revocation.BlankIrrelevant` | src/ngx_http_pgp_auth_module.c:609-625 | a space or tab anywhere in a line changes no verdict |
| `Revocation.CaseIrrelevant` | src/ngx_http_pgp_auth_module.c:609-625 | the case of letters, in the list or in the fingerprint, changes no verdict |
| `Revocation.LineEnd` | src/ngx_http_pgp_auth_module.c:726-737 | the first CR or LF, or the end |
| `Revocation.Scan` | src/ngx_http_pgp_auth_module.c:711-751 | revoked iff some CR- or LF-delimited line lists the fingerprint |
| `Revocation.ListedAppend` | src/ngx_http_pgp_auth_module.c:715-749 | a file joined at a line end lists what either part lists |
| `Revocation.TerminatorsIrrelevant` | src/ngx_http_pgp_auth_module.c:718-737 | LF, CR, CRLF or any mixture give the same verdict |
| `Revocation.SpacingAndCaseIrrelevant` | src/ngx_http_pgp_auth_module.c:603-608 | files that differ only in blanks and case give the same verdict |
| `Revocation.AppendingLinesMonotone` | src/ngx_http_pgp_auth_module.c:628-634 | appending whole lines never clears a revocation |
| `Revocation.Worker.IsRevoked` | src/ngx_http_pgp_auth_module.c:635-752 | verdict and new cache for every stat, open, size, allocation and read outcome, also when the file changes between stat and read |
| `Revocation.DecideTable` | src/ngx_http_pgp_auth_module.c:650-710 | a current copy is used; an absent, unopenable, oversized, unallocatable or unreadable list is decided by policy and leaves the copy alone; any other is read and scanned |
| `Revocation.RevocationCoherent` | src/ngx_http_pgp_auth_module.c:646-752 | over all runs in which every write has a new mtime, a verdict from the cache is that of the file as it is now, and failing closed a listed key is always reported |
| `Revocation.SameMtimeEditUnseen` | src/ngx_http_pgp_auth_module.c:663-666 | for any two contents a run in which the list is rewritten from one to the other under its mtime and the next verdict is that of the old one |
| `Tokens.KindsSeparate` | src/ngx_http_pgp_auth_module.c:564-568 | a challenge input never equals a session input, whatever the fields hold |
| `Tokens.FrameInjective` | src/ngx_http_pgp_auth_module.c:500-522 | separator-free fields share their frame with no other fields |
| `Tokens.FrameInjectiveExactly` | src/ngx_http_pgp_auth_module.c:500-522 | the frame determines the fields iff none of them holds 0x1e |
| `Tokens.ChallengeLayout` | src/ngx_http_pgp_auth_module.c:500-522 | the bytes of a challenge and of its MAC input |
| `Tokens.SessionLayout` | src/ngx_http_pgp_auth_module.c:500-522 | the bytes of a session cookie and of its MAC input |
| `Tokens.LocateChallenge` | src/ngx_http_pgp_auth_module.c:1004-1032 | the search loop and the split find the first challenge line and its parts |
| `Tokens.MarkerMeans` | src/ngx_http_pgp_auth_module.c:1006-1010 | the search stops at the bytes v, 1 and bar in a row |
| `Tokens.ChallengeRoundTrip` | src/ngx_http_pgp_auth_module.c:1004-1032 | a challenge in signed text, ended by LF, CRLF or the end, splits back into its expiry, nonce and tag |
| `Tokens.IssuedChallengeAdmittedExactly` | src/ngx_http_pgp_auth_module.c:1034-1080 | an issued challenge passes under the same binding and either secret exactly while now <= exp |
| `Tokens.ChallengePayloadSpelled` | src/ngx_http_pgp_auth_module.c:1026-1032 | the parts of a found challenge are those its payload spells out |
| `Tokens.CookieRoundTrip` | src/ngx_http_pgp_auth_module.c:829-846 | a granted cookie splits back into its expiry, fingerprint and tag |
| `Tokens.GrantedSessionHonouredExactly` | src/ngx_http_pgp_auth_module.c:848-901 | a granted session passes under the same binding and either secret exactly while unexpired and unrevoked |
| `Tokens.SessionRefusedExactly` | src/ngx_http_pgp_auth_module.c:829-901 | a cookie of three parts passes iff the tag is right under the current secret or a previous one that is set and could be tried, the expiry is readable and not over, and the key is not revoked |
| `Tokens.TooFewBars` | src/ngx_http_pgp_auth_module.c:829-846 | a cookie with fewer than two bars is refused |
| `Login.Reading` | src/ngx_http_pgp_auth_gpg.c:436-571 | the fingerprint taken over from gpg is hexadecimal, and a valid result has a signed text of less than 8192 bytes |
| `Login.ReadingMeans` | src/ngx_http_pgp_auth_gpg.c:436-571 | a result is valid iff the status output says so and neither it nor the signed text was cut off |
| `Login.OrdersAgree` | src/ngx_http_pgp_auth_module.c:1638-1717 | the threaded and the synchronous order give one code; their stores differ exactly when a revoked key's challenge was consumed |
| `Login.GrantNeeds` | src/ngx_http_pgp_auth_module.c:1126-1182 | a grant, in either order, needs a valid signature, an unrevoked key, an admitted challenge and a nonce the store took |
| `Login.ConsumeMeans` | src/ngx_http_pgp_auth_module.c:993-1124 | the challenge check and the store: taken, refused for what the client sent, or no answer, from the inputs |
| `Login.OutcomeTable` | src/ngx_http_pgp_auth_module.c:1126-1255 | every submission, in both orders and from its inputs: 503 and no report iff the store could not answer, the challenge again and a failure iff it is the client's doing, the redirect and a success iff deserved and built, otherwise 500 and no report |
| `Login.EarlyEnds` | src/ngx_http_pgp_auth_module.c:1747-1793 | a submission that ends for lack of memory is answered 500 and not reported, one with an unreadable or unsigned body gets the challenge again and counts as a failure |
| `Login.HonestLoginGranted` | src/ngx_http_pgp_auth_module.c:993-1182 | an issued challenge, validly signed and submitted in time by the same client, is granted iff the single-use store, of whichever kind, takes its nonce |
| `Login.Request.Submit` | src/ngx_http_pgp_auth_module.c:1796-1864 | a posted task pins the request; otherwise it is answered at once |
| `Login.Request.ThreadDone` | src/ngx_http_pgp_auth_module.c:1668-1717 | a watchdog call changes nothing; the completion unpins and answers |
| `Login.Request.Expire` | src/ngx_http_pgp_auth_module.c:1682-1693 | a firing watchdog only disarms itself |
| `Login.PinBalanced` | src/ngx_http_pgp_auth_module.c:1668-1717 | in every event order `blocked` and `aio` are set exactly while a verification is in flight and the request is answered exactly once |
| `Login.Finalize` | src/ngx_http_pgp_auth_module.c:1191-1255 | the challenge is served again iff a failure is reported, the redirect iff a success is; 503 is for a store without an answer, 500 for internal errors |
| `Login.FailuresAreTheClients` | src/ngx_http_pgp_auth_module.c:1747-1788 | the failures the throttle is told of are exactly the submissions that failed by the client's own doing, in order |
| `Login.ChecksAreTheVisits` | src/ngx_http_pgp_auth_module.c:1905-1922 | every visit is checked for a ban at its time, and nothing else is |
| `Login.ServerFaultsNeverBan` | src/ngx_http_pgp_auth_module.c:1107-1119 | a client none of whose submissions failed by its own doing is never banned in any run, whatever store outages and internal errors it met |
| `AuthRun.Handle` | src/ngx_http_pgp_auth_module.c:1867-1974 | which answer a request gets, by whether the location is on, a session passes, it is a main request, the address is banned, and it is a submission of allowed size |
| `Readings.CutFrame` | src/ngx_http_pgp_auth_module.c:500-522 | every cut of a MAC input at its separators has that MAC input as its frame |
| `Readings.ReadingIsCut` | src/ngx_http_pgp_auth_module.c:500-522 | all fields with one frame are cuts of it |
| `Readings.OtherSessionIsCut` | src/ngx_http_pgp_auth_module.c:500-522 | any other session that could be granted in time with the MAC input of a cookie is found by searching its cuts |
| `Readings.OtherChallengeIsCut` | src/ngx_http_pgp_auth_module.c:500-522 | any other challenge that could be issued in time with the MAC input of a login is found by searching its cuts |
| `Readings.SepFreeNoOther` | src/ngx_http_pgp_auth_module.c:500-522 | without 0x1e in its fields a cookie reads as no other session |
| `Readings.SepFreeNoOtherChallenge` | src/ngx_http_pgp_auth_module.c:500-522 | without 0x1e in its fields a signed challenge reads as no other one |
| `Readings.SepFreeNoOtherUse` | src/ngx_http_pgp_auth_module.c:500-522 | without 0x1e in its fields a challenge has no second use |
| `Readings.ConsumableParses` | src/ngx_http_pgp_auth_module.c:1004-1032 | a line of a consumable payload and a tag splits back into them |
| `Readings.ParsedConsumable` | src/ngx_http_pgp_auth_module.c:1004-1080 | conversely a challenge with a readable expiry and a tag of full length, found in a text that fits the buffer, has such a payload |
| `AuthRun.SubmitKeeps` | src/ngx_http_pgp_auth_module.c:1126-1281 | a login on the worker grants only after a valid signature by an unrevoked key over a challenge issued under an accepted secret |
| `AuthRun.ThreadKeeps` | src/ngx_http_pgp_auth_module.c:1638-1662 | the pool thread consumes only issued challenges and hands over what it consumed |
| `AuthRun.FinishGrants` | src/ngx_http_pgp_auth_module.c:1668-1717 | the completion consumes nothing and grants only for a challenge its thread consumed, the key being unrevoked at that moment |
| `AuthRun.FinishKeeps` | src/ngx_http_pgp_auth_module.c:1668-1717 | the completion keeps all tokens well formed |
| `AuthRun.StepKeeps` | src/ngx_http_pgp_auth_module.c:1259-1281 | every step, pool logins, restarts and changes of settings interleaved in any way, keeps all tokens well formed and every grant tied to a consumed and issued challenge |
| `AuthRun.AuthenticatedAccess` | src/ngx_http_pgp_auth_module.c:815-902 | in every run a request past a location with the module on, whose cookie reads in one way only, has an unexpired, now unrevoked grant for that keyring and client under the current or previous secret, after a valid signature by that key over an issued challenge, consumed in time, and issued for the same keyring and client if the signed text too reads in one way only |
| `AuthRun.PlainRequestAuthenticated` | src/ngx_http_pgp_auth_module.c:815-902 | the same for every request without 0x1e in cookie, keyring and binding, whatever other clients send |
| `AuthRun.SessionStaysWithClient` | src/ngx_http_pgp_auth_module.c:544-558 | in every run the login behind a request was for the same keyring, from the same address where that is bound and with the same User-Agent where that is bound |
| `AuthRun.UnboundAgentIgnored` | src/ngx_http_pgp_auth_module.c:544-558 | with the User-Agent binding off another User-Agent changes no token, no challenge check and no session check |
| `AuthRun.UnboundAddressIgnored` | src/ngx_http_pgp_auth_module.c:544-558 | the same for the address binding |
| `AuthRun.UsedOnceKeeps` | src/ngx_http_pgp_auth_module.c:1638-1717 | every step keeps that a consumed challenge serves one grant or one login in flight |
| `AuthRun.SpentKeeps` | src/ngx_http_pgp_auth_module.c:1082-1106 | every step keeps each consumed nonce in its zone or Redis until its expiry, and no second use of it before |
| `AuthRun.PrefixesApart` | src/ngx_http_pgp_auth_nonce.c:617-632 | two deployments with different prefixes of one length share a Redis without seeing each other's keys, and one deployment sees its own until they expire |
| `AuthRun.OneSessionPerChallenge` | src/ngx_http_pgp_auth_module.c:1082-1106 | in every run, with one life of a node's zone or of a Redis shared by any nodes, an issued challenge without another use opens at most one session before its expiry |
| `AuthRun.OneSessionPerPlainChallenge` | src/ngx_http_pgp_auth_module.c:1082-1106 | a second session before the expiry needs 0x1e in a keyring path or a submitted payload, whatever the User-Agents hold |
| `AuthRun.GrantedCookiePasses` | src/ngx_http_pgp_auth_module.c:815-902 | the cookie of a grant passes wherever keyring and binding are the same, exactly while unexpired and unrevoked |
| `AuthRun.NoFingerprintNeverRevoked` | src/ngx_http_pgp_auth_module.c:635-645 | a session without a fingerprint passes until it expires under all revocation verdicts |
| `ListedKeys.ListedKeyNeverPasses` | src/ngx_http_pgp_auth_module.c:635-752 | in every run, at a location whose list fails closed, a request that gets in has a covering grant whose key the list, as it is at that moment, does not name |
| `ListedKeys.ListedKeyNeverGranted` | src/ngx_http_pgp_auth_module.c:1126-1182 | a login on the worker grants nothing to a key the list names now |
| `ListedKeys.ListedKeyNeverFinished` | src/ngx_http_pgp_auth_module.c:1668-1717 | nor does the completion of a pool login, by the list as it is then |
| `AuthExact.Redeem` | src/ngx_http_pgp_auth_module.c:993-1182 | whoever submits the MAC input of an issued challenge under any consumable reading gets a session when the store takes it |
| `AuthExact.AccessCoveredExactly` | src/ngx_http_pgp_auth_module.c:815-902 | whatever passes with a given MAC input has a covering grant in every run iff no location and client have that input, or the payload is refused on sight, or the input reads as no other session that could be granted in time |
| `AuthExact.RevokedKeyKeepsSession` | src/ngx_http_pgp_auth_module.c:891-899 | a run in which, with a 0x1e in the User-Agent of the grant, the session of a now revoked key passes, for any keyring, address, key and expiry |
| `AuthExact.UnrevocableSession` | src/ngx_http_pgp_auth_module.c:891-899 | a run in which a session without a fingerprint passes, for any keyring, client, expiry and revocation verdicts |
| `AuthExact.LoginAnswersExactly` | src/ngx_http_pgp_auth_module.c:1034-1080 | with each of the three backends, every login with a given MAC input answers a challenge issued for its keyring and client iff no location and client have that input, or payload or store refuse it on sight, or it reads as no other challenge that could be issued in time |
| `AuthExact.OneSessionExactly` | src/ngx_http_pgp_auth_module.c:1034-1106 | with each of the three backends, an issued challenge opens at most one session before its expiry through one store in every run iff there is a store and no possible cut of its MAC input can be consumed in time under another name or an earlier expiry |
| `AuthExact.ChallengeUsedTwice` | src/ngx_http_pgp_auth_module.c:1034-1106 | with each backend a run in which a challenge issued to a User-Agent with 0x1e opens two sessions before its expiry |
| `AuthExact.RestartForgets` | src/ngx_http_pgp_auth_nonce.c:221-254 | for every challenge a run in which a restart with an empty zone lets it open a second session before its expiry |

## Left out

- AuthRun.AuthenticatedAccess: takes the MAC as ideal; computational unforgeability of HMAC-SHA256 is not part of this model.
- AuthRun.OneSessionPerChallenge: a Redis exchange is one step there (a lost reply is an error followed by the key appearing); its separate phases, with late SETs and delays between check and SET, are those of `NonceFleet.FleetAtMostOnce`. All nodes share one clock.
- NonceFleet.FleetAtMostOnce: assumes one common clock, one key prefix and a Redis that keeps unexpired keys; without the last only `NonceFleet.FleetRejectOnly` holds.
- AuthExact.AccessCoveredExactly: nginx's limits on the length of a Cookie header are not modelled.
- OrderedIndex.InsertNode: builds the new tree as a value; that the C loop writes one link of a shared node is not captured, nor are node colours.
- OrderedIndex.UnlinkKeeps: nginx's own deletion is not part of this model; it is taken to drop one key from the in-order sequence.
- Config.LocConf.Merge: covers the numeric lifetimes, the enable flag and the throttle zone; string, file and size directives are left out.
- Spawning gpg, its pipes, deadlines and temporary directories: its output is an arbitrary byte stream.
- Sockets, TLS, AUTH and RESP transport: only the size of the SET command and the outcome of an exchange are modelled.
- Cookie header parsing: the model starts at the value of the session cookie, or its absence.
- Body reading and the clear-signed pre-check: `Login.Stage` says how far a submission got before it was judged.
- HTML page, response headers, redirect, logging, secret loading, memory locking and core-dump limits.

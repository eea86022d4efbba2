# A verified model of rvoip's token, auth-state and signal code

This Dafny project models the parts of rvoip whose behaviour is hardest to see from the
code, and proves what they promise for all inputs, all runs and all interleavings.

| files | what they model |
|---|---|
| `Der`, `TnAuthList`, `ClaimConstraints`, `LeafProfile` | the hand-written DER reader, the two certificate extensions of RFC 8226, and the leaf profile |
| `Base64`, `Utf8`, `Text`, `Pem`, `Passport`, `Verifier`, `EndToEnd` | PEM bundles, compact JWTs, the SHAKEN signer and its verifier (RFC 8224, RFC 8225, RFC 8588) |
| `MemoryCounters` | the lock-free object counters, as a protocol of atomic steps |
| `RedisKeys`, `RedisStore`, `RedisAuth`, `RedisRuns` | digest nonces, revocation marks and the rate limiter on a shared Redis |
| `Goertzel`, `MuLaw` | the tone check of the softphone demo and the mu-law encoder of the SIPp tone generator |
| `AkaDigest`, `LdapFilter` | the AKA digest headers and the LDAP user filter |
| `Ceremonies` | the WebAuthn ceremony tables |

## How it is modelled

- Loops and objects of the source are methods and classes proved against specification
  functions; grammars are relations, and readers are proved to accept exactly them.
- Concurrency is interleaving. For the counters every load, fetch-and-add and
  compare-exchange attempt is a step, and a weak compare-exchange may fail for no reason. For
  Redis every command and every Lua script is one step on one key, and a run is any sequence
  of the commands the provider can issue, with time passing in between. For the ceremonies
  every locked section is a step.
- Cryptography, JSON, X.509 and path building, URL parsing, HTTP, UUID text and the passkey
  library are parameters. The end-to-end theorem states what it assumes of them (`Faithful`):
  parsing undoes printing, and a signature verifies under its public key.
- Base64 and UTF-8 are modelled in full, down to alphabet and bit order (`Base64.GroupSpells`,
  `Base64.LettersAre`, `Base64.EncodeAt`, `Base64.Vectors`, `Base64.UrlVectors`,
  `Utf8.Examples`), and so is
  the debug form of rate-limit kinds (`RedisKeys.KindsAre`, `RedisKeys.DebugIs`). Text is a
  sequence of Unicode scalar values.
- Integers are unbounded except where the source's width matters: the 64-bit accumulators and
  counters, `i64` skew arithmetic (release build), `u128` ranges with saturating addition.
- Redis time is in milliseconds; a record answers up to and including the millisecond of its
  expiry, and `TTL` answers seconds rounded to the nearest. Caller and server share the clock.
- The tone check is over the reals, with an abstract rotation for cosine and sine.

## Where the code and its documentation differ

- `read_unsigned_integer` says it refuses negative values but does not test the sign
  (`profile.rs`, lines 280-300); the model reads as the code does and
  `Der.UnsignedIntegerAsDocumented` says exactly when the two agree.
- A snapshot is meant to reconcile racing events (a test of `memory_diagnostics.rs` says so);
  with both totals read as zero it reports the live counter instead.
  `GuardCounters.SnapshotBound` and `GuardCounters.SnapshotIff` say exactly when it can exceed
  the true count.
- The nonce-count lifetime is cut to whole seconds, so a nonce whose lifetime is within the
  configured duration can still outlive its counts by a fraction of a second.
  `NonceRuns.ShortLifetimeIsReplayed` is such a nonce; `NonceRuns.NoReplayIff` gives the exact
  condition.
- The limiter's retry hint is rounded by Redis, so waiting exactly as told can be up to half a
  second short (`RateRuns.WaitingAsToldFails`). `RateRuns.WaitingIff` gives the exact condition.
- The issue time is meant to be the clock plus the skew. A sum past 2^63 wraps and is stamped as
  the epoch. `EndToEnd.SignedTokenVerifies` gives the verdict for those tokens too.
- A wider freshness window is meant to accept more. From 2^63 seconds on the cast to `i64` makes
  it negative and refuses almost everything. `Verifier.WiderWindowIff` gives the exact condition.
- The LDAP template's two placeholders are filled in two passes, and the second also sees what
  the first put in: template `{username}` with user name `{user}x` is substituted twice.
  `LdapFilter.RenderIsSubstitutionIff` gives the exact condition.
- Rate-limit keys are meant to be one per caller. An absent field and the field `_` share a name,
  and so do keys whose fields hold the text of a later field's label
  (`RedisKeys.UnderscoreIsConfused`, `RedisKeys.BarIsConfused`). `RedisKeys.OwnNameIff` gives
  the exact condition.
- A request URI with commas is read back as further digest parameters
  (`AkaDigest.CommaCanReplaceUser`). `AkaDigest.RoundTripIff` gives the exact condition.
- The live counters are meant to count the guards. Guards whose sizes together pass 64 bits make
  them wrap and the next drop saturate (`GuardCounters.TwoGuardsSaturate`).
  `GuardCounters.GaugesExactIff` gives the exact condition.

## Model

| member | source | states |
|---|---|---|
| EndToEnd.SignedTokenVerifies | crates/extensions/rvoip-stir-shaken/src/signer.rs:139-258 | Every summary the signer accepts under the SHAKEN profile, sent on a request whose From and To canonicalise to the claimed parties, with the signer's certificate published and any configured trust store content: at every clock within the window around the signer's clock plus skew the verdict is Valid with the same attestation letter and origid, outside it Stale with the difference; exactly a sum past 2^63 breaks this, whose token is stamped with the epoch |
| EndToEnd.SignedTokenVerdict | crates/extensions/rvoip-stir-shaken/src/signer.rs:187-237 | The same for every sum of clock and skew, in terms of the stamp: the sum itself, zero below the epoch, wrapped outside 64 bits |
| EndToEnd.AssumptionsCanHold | crates/extensions/rvoip-stir-shaken/src/signer.rs:139-237 | For every summary whose claims can be built, every issue time and window, there are parameters, a request, a trust store with a passing certificate and a clock that meet all the theorem's assumptions |
| EndToEnd.TokenCarriesClaims | crates/extensions/rvoip-stir-shaken/src/signer.rs:187-237 | What the signer put into the token (parties, level, origid, certificate URL, and its clock plus skew as issue time) is what splitting and decoding it yields |
| EndToEnd.SignatureSurvives | crates/extensions/rvoip-stir-shaken/src/verifier.rs:318-345 | The bytes the verifier recovers and checks are the bytes that were signed, under the published key |
| EndToEnd.SignerAcceptsIff | crates/extensions/rvoip-stir-shaken/src/signer.rs:139-182 | Signing succeeds exactly for summaries that name an originator, a destination and a known level, when serialisation and the key do their part |
| Passport.StampIsClock | crates/extensions/rvoip-stir-shaken/src/signer.rs:195-201 | The issue time is the clock plus the skew, zero below the epoch; sums outside 64 bits wrap |
| Passport.SplitOfToken | crates/extensions/rvoip-stir-shaken/src/signer.rs:243-258 | Splitting a token made of three encoded segments recovers all three |
| Passport.SigningInputIsFirstTwo | crates/extensions/rvoip-stir-shaken/src/verifier.rs:318-345 | For every token that splits, the text before the last dot is its first two segments, re-encoded verbatim |
| Passport.UrlEncodeHasNoDot | crates/extensions/rvoip-stir-shaken/src/signer.rs:215-237 | A base64url segment never contains the separator |
| Verifier.Verify | crates/extensions/rvoip-stir-shaken/src/verifier.rs:193-370 | The early-return sequence computes the verdict of the sixteen checks |
| Verifier.OutcomeIsFirstFault | crates/extensions/rvoip-stir-shaken/src/verifier.rs:193-370 | The outcome is that of the first failing check; Valid exactly when all pass, with the payload's level and origid |
| Verifier.UnreadableTokens | crates/extensions/rvoip-stir-shaken/src/verifier.rs:199-222 | BadSignature for every token that does not split or whose header or payload does not parse |
| Verifier.MisheadedTokens | crates/extensions/rvoip-stir-shaken/src/verifier.rs:224-237 | BadSignature for every readable token whose algorithm is not ES256, then BadInfo for every one that is not of type shaken where that is required |
| Verifier.UnlocatedCertificates | crates/extensions/rvoip-stir-shaken/src/verifier.rs:239-270 | BadInfo without info and x5u, or for a text that is no URL, info coming before x5u; BadChain when the fetch fails |
| Verifier.UnfitCertificates | crates/extensions/rvoip-stir-shaken/src/verifier.rs:272-321 | BadChain, with its reason, for a bundle that does not decode, a leaf that does not parse, a chain the anchors do not vouch for, a leaf outside the profile and a key that is not an uncompressed P-256 point, in this order |
| Verifier.CallVerdict | crates/extensions/rvoip-stir-shaken/src/verifier.rs:307-370 | With a fit certificate: BadSignature unless its key signed the first two segments, then ClaimMismatch unless the claims are From and To, then Stale outside the window, and otherwise Valid with the payload's level and origid |
| Verifier.MismatchIff | crates/extensions/rvoip-stir-shaken/src/verifier.rs:562-603 | The claims match exactly when the caller is the claimed number, or URI where there is no number, and the callee is among the claimed numbers, or URIs where there are none; orig is reported before dest |
| Verifier.FirstOfKind | crates/extensions/rvoip-stir-shaken/src/verifier.rs:568-575 | From and To are the first headers of their kind, whatever else the request holds |
| Verifier.CanonicalIs | crates/extensions/rvoip-stir-shaken/src/verifier.rs:608-625 | A SIP address whose user is a plus sign and digits stands for that number, a tel URI for what it dials, any other address for itself |
| Verifier.VerifiedBeforeClaims | crates/extensions/rvoip-stir-shaken/src/verifier.rs:318-370 | ClaimMismatch, Stale and Valid are only reported for tokens whose signature verified |
| Verifier.ValidMeans | crates/extensions/rvoip-stir-shaken/src/verifier.rs:193-370 | A Valid token is ES256, and shaken where required; its first two segments were signed by the leaf's key, its claims are From and To when both are present, it is fresh, and with anchors configured the chain, the TNAuthList and the claim constraints accept it |
| Verifier.ClockMovesOnlyFreshness | crates/extensions/rvoip-stir-shaken/src/verifier.rs:350-370 | With the path verdict held fixed, changing only the clock moves the outcome only between Valid and Stale |
| Verifier.WiderWindowIff | crates/extensions/rvoip-stir-shaken/src/verifier.rs:350-370 | Widening the window keeps a Valid exactly as long as the window stays below 2^63 seconds, or the skew is the one whose absolute value overflows |
| Verifier.WidestWindowIsStale | crates/extensions/rvoip-stir-shaken/src/verifier.rs:350-362 | The widest window a duration can hold refuses a token signed this very second |
| Verifier.FreshIff | crates/extensions/rvoip-stir-shaken/src/verifier.rs:350-362 | The wrapping skew test is the documented two-sided window, except exactly on the stated overflow cases |
| Verifier.DecodingKeyIsSpki | crates/extensions/rvoip-stir-shaken/src/verifier.rs:540-554 | The detour of the key through base64url coordinates is the identity on uncompressed P-256 points and refuses everything else |
| LeafProfile.EnforceShakenProfile | crates/extensions/rvoip-stir-shaken/src/verifier.rs:444-521 | The scan and the checks after it return the profile fault of the certificate |
| LeafProfile.ProfileIff | crates/extensions/rvoip-stir-shaken/src/verifier.rs:444-521 | A leaf passes exactly when its extensions parse, its last TNAuthList spells entries that authorise the originating number, and its last claim constraints permit the level |
| LeafProfile.ProfileFaultIs | crates/extensions/rvoip-stir-shaken/src/verifier.rs:444-521 | Which fault is reported once every extension parses: no list, an empty list, a number it does not authorise, a level the constraints do not permit, in this order |
| LeafProfile.FirstParseError | crates/extensions/rvoip-stir-shaken/src/verifier.rs:444-478 | The first extension that does not parse decides, with its own error |
| LeafProfile.ListFaultIff | crates/extensions/rvoip-stir-shaken/src/verifier.rs:480-512 | The three-list check decides the rule over the interleaved entries: some exist, and an SPC, an equal TN or a range that counts up to the number covers it |
| LeafProfile.RangeIff | crates/extensions/rvoip-stir-shaken/src/verifier.rs:527-536 | For all numbers below 2^128, written with or without a plus sign: a range holds exactly the count of numbers from its start on, less the very last where it reaches 2^128 |
| LeafProfile.NumberOfPrint | crates/extensions/rvoip-stir-shaken/src/verifier.rs:527-533 | Every number written in decimal is read as itself below 2^128 and as none from there on |
| LeafProfile.OtherTextIsNoNumber | crates/extensions/rvoip-stir-shaken/src/verifier.rs:527-533 | A text with any character that is no digit, but for leading plus signs, is read as no number |
| LeafProfile.MoreEntriesStillAuthorise | crates/extensions/rvoip-stir-shaken/src/verifier.rs:480-512 | Adding entries anywhere never turns the list check's acceptance into refusal |
| LeafProfile.SplitEntryKeepsVerdict | crates/extensions/rvoip-stir-shaken/src/verifier.rs:527-536 | Replacing a range by its two halves changes no verdict, even where the upper end saturates |
| Der.Accumulate | crates/extensions/rvoip-stir-shaken/src/profile.rs:262-270 | The shift-accumulate loop computes the big-endian value modulo 2^64 |
| Der.ReadTlv | crates/extensions/rvoip-stir-shaken/src/profile.rs:251-278 | The reader returns the element at the front, with lengths of up to four bytes |
| Der.FirstTlvSound | crates/extensions/rvoip-stir-shaken/src/profile.rs:251-278 | Whatever is read splits the input exactly into header, contents of the encoded length, and rest |
| Der.FirstTlvComplete | crates/extensions/rvoip-stir-shaken/src/profile.rs:251-278 | Every well-formed element is read off whatever follows it |
| Der.FirstTlvAppend | crates/extensions/rvoip-stir-shaken/src/profile.rs:251-278 | Appended bytes only lengthen the rest |
| Der.ElementsIff | crates/extensions/rvoip-stir-shaken/src/profile.rs:96-139 | A parse loop returns exactly the lists whose concatenated elements it is given |
| Der.FirstBadElement | crates/extensions/rvoip-stir-shaken/src/profile.rs:96-139 | Behind elements a parse loop can read, the first it cannot read decides: truncated, or that element's own error |
| Der.ReadUnsignedInteger | crates/extensions/rvoip-stir-shaken/src/profile.rs:282-300 | The eight-byte cap keeps the loop equal to the true big-endian value |
| Der.UnsignedIntegerAsDocumented | crates/extensions/rvoip-stir-shaken/src/profile.rs:280-300 | The reader keeps its documented promise exactly when the body is neither a short negative number nor over-long with superfluous zeros |
| Der.NegativeIntegerIsRead | crates/extensions/rvoip-stir-shaken/src/profile.rs:280-300 | The one-byte INTEGER minus one is read as 255 |
| Der.PrintIsTlv | crates/extensions/rvoip-stir-shaken/src/profile.rs:307-324 | The encoder's output, extended to four length bytes, is an element with those contents |
| TnAuthLists.ParseTnAuthList | crates/extensions/rvoip-stir-shaken/src/profile.rs:82-142 | The loop computes the parse of the list, with its error cases |
| TnAuthLists.TnAuthListIff | crates/extensions/rvoip-stir-shaken/src/profile.rs:74-142 | Parsing succeeds exactly on the grammar's spellings and returns the entries per kind, in order |
| TnAuthLists.NoList | crates/extensions/rvoip-stir-shaken/src/profile.rs:82-96 | Bytes that are no element, or no SEQUENCE, are refused as such |
| TnAuthLists.FirstBadEntry | crates/extensions/rvoip-stir-shaken/src/profile.rs:96-142 | Behind readable entries the first unreadable one is reported: truncated, of an unknown kind, not UTF-8, or a bad range |
| TnAuthLists.BadRange | crates/extensions/rvoip-stir-shaken/src/profile.rs:108-133 | What is reported of a range: its start or count truncated, of the wrong type, not UTF-8, or out of range |
| TnAuthLists.ParseOfPrint | crates/extensions/rvoip-stir-shaken/src/profile.rs:82-142 | Every interleaved list of SPC, TN and range entries with counts below 2^64 survives printing and parsing |
| TnAuthLists.TnAuthListIgnoresTrailing | crates/extensions/rvoip-stir-shaken/src/profile.rs:82-96 | Bytes after the outer element never change the parse |
| ClaimConstraints.ParseConstraints | crates/extensions/rvoip-stir-shaken/src/profile.rs:156-244 | The three nested loops compute the parse of the constraints, with their error cases |
| ClaimConstraints.ConstraintsIff | crates/extensions/rvoip-stir-shaken/src/profile.rs:146-244 | Parsing succeeds exactly on the grammar's spellings, mustInclude blocks anywhere, and returns the permitted claims in order |
| ClaimConstraints.NoConstraints | crates/extensions/rvoip-stir-shaken/src/profile.rs:156-170 | Bytes that are no element, or no SEQUENCE, are refused as such |
| ClaimConstraints.FirstBadField | crates/extensions/rvoip-stir-shaken/src/profile.rs:170-244 | Behind readable fields the first unreadable one is reported: truncated, of an unknown kind, or with the error of its claims |
| ClaimConstraints.FirstBadClaim | crates/extensions/rvoip-stir-shaken/src/profile.rs:178-232 | Behind readable claims the first unreadable one is reported |
| ClaimConstraints.ParseOfPrint | crates/extensions/rvoip-stir-shaken/src/profile.rs:156-244 | Every list of permitted-value blocks with mustInclude blocks, of any contents, in any position survives printing and parsing |
| ClaimConstraints.ConstraintsIgnoreTrailing | crates/extensions/rvoip-stir-shaken/src/profile.rs:156-170 | Bytes after the outer element never change the parse |
| ClaimConstraints.FirstNamedIff | crates/extensions/rvoip-stir-shaken/src/profile.rs:63-69 | The permitted values of a claim are those of its first mention |
| Pem.DecodePemBundle | crates/extensions/rvoip-stir-shaken/src/trust.rs:109-133 | The cursor loop returns the decoded blocks, or the first fault |
| Pem.BundleIff | crates/extensions/rvoip-stir-shaken/src/trust.rs:109-133 | Decoding returns a list exactly when the text is a bundle of that list: filler, BEGIN, whitespace-padded Base64, END, repeated |
| Pem.DecodeOfArmour | crates/extensions/rvoip-stir-shaken/src/trust.rs:109-133 | Every list of certificates, armoured with any whitespace and any line-ended filler free of the BEGIN marker, decodes to exactly that list in order |
| Pem.DecodeOfLines | crates/extensions/rvoip-stir-shaken/src/trust.rs:109-133 | Every list of certificates whose Base64 is cut into lines anywhere, ended by LF or CR LF, decodes to exactly that list in order |
| Pem.CleanedSkips | crates/extensions/rvoip-stir-shaken/src/trust.rs:119-124 | Blanks, tabs and line ends can be put anywhere into a body without changing what is read |
| Pem.CleanedKeeps | crates/extensions/rvoip-stir-shaken/src/trust.rs:119-124 | Printable ASCII is read as it stands |
| Pem.BadBlock | crates/extensions/rvoip-stir-shaken/src/trust.rs:109-133 | A BEGIN without an END and a body that is not Base64 are reported as such |
| Pem.FirstBadBlock | crates/extensions/rvoip-stir-shaken/src/trust.rs:109-133 | Good blocks in front of a bad one do not change what is reported, and are not returned |
| Pem.DecodeCertBundle | crates/extensions/rvoip-stir-shaken/src/verifier.rs:376-395 | A resolver's answer becomes the certificates of its PEM blocks, or itself as one DER certificate; a successful answer is never empty, so the leaf always exists, and the test for an empty one never fires |
| Pem.CertBundleIs | crates/extensions/rvoip-stir-shaken/src/verifier.rs:376-395 | What holds no certificate block, or is not UTF-8, is taken as one DER certificate; anything else is the decoded bundle or its error |
| Pem.TrustStore.AddPem | crates/extensions/rvoip-stir-shaken/src/trust.rs:53-63 | Adds every certificate of the bundle in order and reports how many, or changes nothing |
| Pem.TrustStore.AddDer | crates/extensions/rvoip-stir-shaken/src/trust.rs:66-68 | Adds one certificate at the end |
| PeakCounters.PeakNeverDecreases | crates/foundation/infra-common/src/memory_diagnostics.rs:349-357 | Under every interleaving the peak counters never decrease |
| PeakCounters.PeakWasReached | crates/foundation/infra-common/src/memory_diagnostics.rs:104-165 | A peak is always a level the live counter really reached |
| PeakCounters.PeakIsMaximumAtRest | crates/foundation/infra-common/src/memory_diagnostics.rs:104-165 | Once no call is in progress the peaks equal the maximum of the whole history, despite lost races and spurious failures |
| GuardCounters.GaugesExactIff | crates/foundation/infra-common/src/memory_diagnostics.rs:62-141 | For every interleaving of disciplined calls: the live counters equal, throughout, the sums of what the guards past the matching step contribute, exactly when what exists at one time always fits in 64 bits |
| GuardCounters.TwoGuardsSaturate | crates/foundation/infra-common/src/memory_diagnostics.rs:62-141 | A run with two guards of 2^63 bytes in which the live bytes wrap to zero and the first drop finds less than it subtracts |
| GuardCounters.TotalsHold | crates/foundation/infra-common/src/memory_diagnostics.rs:104-141 | Under every interleaving of disciplined calls the totals count, as 64-bit words, the objects that exist and their bytes |
| GuardCounters.TotalsExactHold | crates/foundation/infra-common/src/memory_diagnostics.rs:104-141 | As long as no total has wrapped they do so as numbers |
| GuardCounters.PoolsHold | crates/foundation/infra-common/src/memory_diagnostics.rs:143-165 | Under every interleaving of disciplined calls, checkouts less returns count, as 64-bit words, the buffers out of their pool |
| MemoryCounters.NeverBlocks | crates/foundation/infra-common/src/memory_diagnostics.rs:104-165 | Nobody waits for anybody: from rest every call can start, every other step can be taken, and exactly a compare-exchange about to be tried may fail, changing no counter |
| GuardCounters.NeverSaturates | crates/foundation/infra-common/src/memory_diagnostics.rs:120-141 | Wherever the live counters are exact, the saturating decrements do not saturate |
| GuardCounters.BalancedAtRest | crates/foundation/infra-common/src/memory_diagnostics.rs:62-165 | At rest, as long as what exists has always fitted, live counts the held objects and is created minus dropped, and live bytes are bytes created minus dropped plus what is borrowed from pools, as 64-bit words |
| GuardCounters.BalancedExactly | crates/foundation/infra-common/src/memory_diagnostics.rs:62-165 | And as numbers, as long as no total has wrapped either |
| GuardCounters.SnapshotBound | crates/foundation/infra-common/src/memory_diagnostics.rs:318-331 | As long as no total has wrapped, a racing snapshot reports no more objects than existed when created was loaded, exactly unless it read two zeros and then a positive live count |
| GuardCounters.SnapshotIff | crates/foundation/infra-common/src/memory_diagnostics.rs:318-331 | For every run of disciplined calls, wrapped totals or not, the exact condition for that, in terms of the drops as read and those there had been |
| GuardCounters.WrappedSnapshotOvercounts | crates/foundation/infra-common/src/memory_diagnostics.rs:318-331 | A run of 2^64 objects in which a snapshot overcounts because the dropped total wrapped between its loads |
| GuardCounters.SnapshotCanOvercount | crates/foundation/infra-common/src/memory_diagnostics.rs:318-331 | A run in which that exception happens |
| RedisKeys.HexKey | crates/extensions/rvoip-redis/src/lib.rs:415-423 | The loop writes two lower-case hex digits for each byte of the text |
| RedisKeys.HexInjective | crates/extensions/rvoip-redis/src/lib.rs:415-423 | Different bytes have different names |
| RedisKeys.HexSpells | crates/extensions/rvoip-redis/src/lib.rs:415-423 | The two digits at a byte's place spell that byte, high digit first |
| RedisKeys.NamesAre | crates/extensions/rvoip-redis/src/lib.rs:184-205 | The names of nonces, counts and tokens, in full |
| RedisKeys.RateNameIs | crates/extensions/rvoip-redis/src/lib.rs:206-215 | The names of rate counters, in full |
| RedisKeys.FamiliesApart | crates/extensions/rvoip-redis/src/lib.rs:184-215 | Names of different families never coincide |
| RedisKeys.OwnNameIff | crates/extensions/rvoip-redis/src/lib.rs:206-215 | A rate key shares its name with nothing but keys that differ in an absent field against the field _, exactly when no field holds the text that introduces a later field |
| RedisKeys.UnderscoreIsConfused | crates/extensions/rvoip-redis/src/lib.rs:206-215 | An anonymous caller and one named _ share a counter |
| RedisKeys.BarIsConfused | crates/extensions/rvoip-redis/src/lib.rs:206-215 | A bar in a subject or realm can be read as the start of the next field: a whole family of pairs of distinct keys that share a name |
| RedisKeys.RenderIff | crates/extensions/rvoip-redis/src/lib.rs:184-215 | For all records: names are equal exactly when the records are, or both are rate records whose keys are written alike |
| RedisKeys.RenderInjective | crates/extensions/rvoip-redis/src/lib.rs:184-215 | Records have equal names exactly when they are equal, for rate fields that are not _ and hold no text that introduces a later field (in particular none with a bar) |
| RedisStore.FlatStoreRefines | crates/extensions/rvoip-redis/src/lib.rs:184-215 | Over every sequence of commands the flat string store answers every command as a store that keeps the four families apart, rate records known by the text of their keys |
| RedisStore.AloneAnswers | crates/extensions/rvoip-redis/src/lib.rs:184-215 | For a record no other record of the run shares its name with, always so for nonces, counts and tokens, the flat store answers as the store of whole records |
| RedisAuth.RequestsIssue | crates/extensions/rvoip-redis/src/lib.rs:131-376 | Every command a request sends is one of those the theorems about runs range over |
| RedisAuth.AllowedIff | crates/extensions/rvoip-redis/src/lib.rs:317-344 | An attempt is allowed exactly when a live counter is below the limit, or there is none and the limit is not zero |
| RedisAuth.RedisAuthProvider.RecordNonce | crates/extensions/rvoip-redis/src/lib.rs:220-238 | Stores the expiry in whole seconds, for the remaining lifetime plus retention and at least a second; refuses times before the epoch |
| RedisAuth.RedisAuthProvider.NonceStatus | crates/extensions/rvoip-redis/src/lib.rs:240-258 | Unknown without a live record; with one, Active before its second and Expired from then on; an error for a foreign value or a clock before the epoch; changes nothing |
| RedisAuth.RedisAuthProvider.AcceptNonceCount | crates/extensions/rvoip-redis/src/lib.rs:260-285 | False exactly when a live count is as high, otherwise true and the count stored for its lifetime; a lifetime under a second is an error; nothing else changes |
| RedisAuth.RedisAuthProvider.RevokeToken | crates/extensions/rvoip-redis/src/lib.rs:131-178 | Stores a mark for the remaining lifetime or the default, at least a second |
| RedisAuth.RedisAuthProvider.CheckToken | crates/extensions/rvoip-redis/src/lib.rs:290-312 | Revoked exactly when the global mark is live at the first read or the issuer's at the second, whatever other clients do in between |
| RedisAuth.RedisAuthProvider.CheckAuthAttempt | crates/extensions/rvoip-redis/src/lib.rs:317-344 | Allowed exactly below the limit; otherwise Denied with the rounded time left that TTL finds after whatever other clients do in between, or the window |
| RedisAuth.RedisAuthProvider.RecordAuthResult | crates/extensions/rvoip-redis/src/lib.rs:346-376 | A success clears the counter; a failure adds one to a live counter and keeps its expiry, and the first opens a window |
| NonceRuns.AcceptedCountsIncrease | crates/extensions/rvoip-redis/src/lib.rs:260-285 | In every run, counts accepted for one user and nonce within the count lifetime strictly increase |
| NonceRuns.FlatCountsIncrease | crates/extensions/rvoip-redis/src/lib.rs:260-285 | The same on the flat string store, whatever else is stored in it |
| NonceRuns.StatusOverTime | crates/extensions/rvoip-redis/src/lib.rs:220-258 | At every moment of every run the status of a nonce recorded once is given by its lapse and its record's end |
| NonceRuns.StatusOnlyAdvances | crates/extensions/rvoip-redis/src/lib.rs:220-258 | The status only moves from Active to Expired to Unknown |
| NonceRuns.NeverForgottenEarlyIff | crates/extensions/rvoip-redis/src/lib.rs:220-238 | No run forgets the nonce before it expires, exactly when its record outlasts its lifetime in whole seconds; a second of retention is enough |
| NonceRuns.NoReplayIff | crates/extensions/rvoip-redis/src/lib.rs:220-285 | No run accepts a count twice, or out of order, while the nonce is Active, exactly when counts are refused altogether or their lifetime covers the nonce's |
| NonceRuns.ReplayWhenNotCovered | crates/extensions/rvoip-redis/src/lib.rs:260-285 | Otherwise the given run accepts the same count twice while the nonce is Active |
| NonceRuns.ShortLifetimeIsReplayed | crates/extensions/rvoip-redis/src/lib.rs:260-285 | Such a nonce: one lifetime of a second and a half for nonce and counts alike, and a count accepted twice while it is Active |
| NonceRuns.WholeSecondsCover | crates/extensions/rvoip-redis/src/lib.rs:260-285 | With a count lifetime of whole seconds, no shorter than the nonce's, the condition holds |
| RateRuns.FailuresBounded | crates/extensions/rvoip-redis/src/lib.rs:317-376 | With at most K attempts in flight that the limiter allowed, the failure count never exceeds the limit minus one plus K, and every counter ends within a window |
| RateRuns.BoundIsReached | crates/extensions/rvoip-redis/src/lib.rs:317-376 | Some run reaches that bound |
| RateRuns.ExpiryNeverMoves | crates/extensions/rvoip-redis/src/lib.rs:357-372 | Between any two moments of a run with the counter live throughout, whatever failures are recorded, the expiry is the same |
| RateRuns.WaitingIff | crates/extensions/rvoip-redis/src/lib.rs:317-344 | After a denial, with anything between its two reads, an attempt after waiting as told is allowed exactly unless the hint fell short of the time left and one made when TTL read it would still have been denied; half a second more always suffices |
| RateRuns.WaitingAsToldFails | crates/extensions/rvoip-redis/src/lib.rs:317-344 | A one-second window checked as it opens: told to wait a second, and after exactly that still denied |
| TokenRuns.MarkIff | crates/extensions/rvoip-redis/src/lib.rs:169-178 | In every run a mark is live exactly until its latest revocation ends |
| TokenRuns.RevokedIff | crates/extensions/rvoip-redis/src/lib.rs:290-312 | A check, with anything in between its two reads, answers Revoked exactly when the latest revocation of the global or the issuer's mark has not ended when read |
| TokenRuns.RevocationLasts | crates/extensions/rvoip-redis/src/lib.rs:395-404 | The latest revocation is in force exactly for the token's remaining lifetime, or the configured time when it has no expiry or is past it, in whole seconds and at least one; so to within a second of the expiry |
| Goertzel.GoertzelPower | examples/02-softphone-audio/src/lib.rs:232-247 | The two-register loop computes the squared magnitude of the Fourier sum over the squared length, for every rotation |
| Goertzel.HornerIsTurnedDft | examples/02-softphone-audio/src/lib.rs:232-247 | The filter's state is the Fourier sum turned by the samples seen |
| Goertzel.PowerWithinMeanSquare | examples/02-softphone-audio/src/lib.rs:213-247 | The normalised power at any frequency is at most the mean square |
| Goertzel.BoundIsAttained | examples/02-softphone-audio/src/lib.rs:213-247 | A constant recording attains that bound at frequency zero, with its own square |
| Goertzel.DominantTone | examples/02-softphone-audio/src/lib.rs:218-230 | The scan of every 20 Hz from 300 to 1000 Hz returns the lowest of the strongest frequencies, or zero for silence |
| Goertzel.PowerImpliesLoudness | examples/02-softphone-audio/src/lib.rs:23-161 | Audio below the loudness threshold is below the power threshold at every frequency |
| Goertzel.AnalyzeTone | examples/02-softphone-audio/src/lib.rs:125-194 | A recording is accepted exactly when it has two seconds, the expected tone has power 0.001 and three times that of the rejected one, and the strongest frequency is within 40 Hz of it, whatever the loudness check says; which fault is reported otherwise |
| MuLaw.Linear2Ulaw | examples/13-sip-to-amazon-connect/sipp/make_tone.py:20-36 | The loop returns the code of the cell the clipped biased magnitude lies in, with the sign |
| MuLaw.ErrorBound | examples/13-sip-to-amazon-connect/sipp/make_tone.py:20-36 | The coded segment e has 2^(e+7) <= biased magnitude < 2^(e+8), and the G.711 decoding is within 2^(e+2) of the clipped sample |
| MuLaw.DecodeMonotone | examples/13-sip-to-amazon-connect/sipp/make_tone.py:20-36 | Larger samples never decode to smaller values |
| MuLaw.EncodingUnique | examples/13-sip-to-amazon-connect/sipp/make_tone.py:20-36 | Every sample has one code |
| MuLaw.ReencodeIff | examples/13-sip-to-amazon-connect/sipp/make_tone.py:20-36 | Re-encoding a decoded code gives the code back exactly unless it is negative zero, which becomes positive zero |
| AkaDigest.ParseAuthParams | crates/extensions/rvoip-ims-aka/src/lib.rs:336-352 | The loop computes the parameters, later ones replacing earlier ones |
| AkaDigest.ParseOfPrint | crates/extensions/rvoip-ims-aka/src/lib.rs:336-352 | The parser inverts the printer on every list of lower-case, comma-free parameters |
| AkaDigest.NamesIgnoreCase | crates/extensions/rvoip-ims-aka/src/lib.rs:336-352 | A parameter is read under its name in lower case, however it is written |
| Text.LowerIs | crates/extensions/rvoip-ims-aka/src/lib.rs:336-352 | Capital letters become the small letters at the same place of the alphabet; nothing else changes |
| AkaDigest.ReadsBack | crates/extensions/rvoip-ims-aka/src/lib.rs:336-352 | With distinct names every printed parameter is found under its name |
| AkaDigest.PlainAnswerReads | crates/extensions/rvoip-ims-aka/src/lib.rs:102-136 | An answer without stray commas is read back field by field: user name, realm, nonce, URI, response, algorithm, qop and cnonce |
| AkaDigest.QuotedIff | crates/extensions/rvoip-ims-aka/src/lib.rs:354-356 | Escaping, quoting and reading a value gives it back exactly when it needed no escaping |
| AkaDigest.AnswersOwnChallengeIff | crates/extensions/rvoip-ims-aka/src/lib.rs:56-136 | The provider answers its own challenge exactly when realm and nonce are free of comma, quote and backslash |
| AkaDigest.RoundTripIff | crates/extensions/rvoip-ims-aka/src/lib.rs:102-174 | For every vector, request URI and count the printed answer validates to the vector's identity exactly when the response is free of comma, quote and backslash, and user name, realm and nonce each equal what the last URI piece naming them binds or, unnamed, are free of those characters |
| AkaDigest.CommaFreeRoundTripIff | crates/extensions/rvoip-ims-aka/src/lib.rs:102-174 | For a URI without a comma: exactly when all four fields are free of comma, quote and backslash |
| AkaDigest.ForeignAnswerIff | crates/extensions/rvoip-ims-aka/src/lib.rs:138-174 | An answer printed for another vector validates exactly when the two agree in user name, realm, nonce, response and algorithm |
| AkaDigest.AlgorithmIgnoresCase | crates/extensions/rvoip-ims-aka/src/lib.rs:138-174 | An answer whose algorithm is written in lower case validates |
| AkaDigest.ForeignChallengeIff | crates/extensions/rvoip-ims-aka/src/lib.rs:102-136 | Another vector's challenge is answered exactly when the two agree in realm, nonce and algorithm |
| AkaDigest.BareChallengeIsAnswered | crates/extensions/rvoip-ims-aka/src/lib.rs:102-136 | A challenge that names none of them is always answered |
| AkaDigest.CountIsCarried | crates/extensions/rvoip-ims-aka/src/lib.rs:102-136 | The answer's nc parameter is eight hexadecimal digits that spell the 32-bit count |
| AkaDigest.CommaCanReplaceUser | crates/extensions/rvoip-ims-aka/src/lib.rs:102-174 | For every host and every user name but one, a URI with a comma whose answer the provider itself refuses |
| LdapFilter.EscapeFilterValue | crates/extensions/rvoip-ldap/src/lib.rs:290-303 | The loop escapes character by character |
| LdapFilter.UnescapeOfEscape | crates/extensions/rvoip-ldap/src/lib.rs:290-303 | Reading an escaped value gives the value back |
| LdapFilter.RenderKeepsShape | crates/extensions/rvoip-ldap/src/lib.rs:283-303 | For every template and user name the filter has exactly the template's parentheses, stars and zero bytes, in order |
| LdapFilter.RenderIsSubstitutionIff | crates/extensions/rvoip-ldap/src/lib.rs:283-288 | With opening braces only in the template's placeholders, the two passes are the simultaneous substitution exactly when the first pass makes no new {user}, inside or across what it inserts, or the escaped name is {user} itself |
| LdapFilter.RenderIsSubstitution | crates/extensions/rvoip-ldap/src/lib.rs:283-288 | In particular for every user name without an opening brace |
| LdapFilter.BraceIsSubstitutedTwice | crates/extensions/rvoip-ldap/src/lib.rs:283-288 | A user name with an opening brace for which they are not |
| Ceremonies.WebauthnService.StartCeremony | crates/extensions/rvoip-webauthn/src/lib.rs:130-250 | Prunes both tables; an unknown or inactive user, a store error, an authentication without passkeys and a failing library are refused, each with its own error and nothing stored; otherwise the user's challenge is stored under the new id |
| Ceremonies.WebauthnService.TakeCeremony | crates/extensions/rvoip-webauthn/src/lib.rs:334-356 | Removes the entry and hands it out exactly when it has not expired |
| Ceremonies.WebauthnService.FinishAuthentication | crates/extensions/rvoip-webauthn/src/lib.rs:254-294 | Tokens are issued to the user stored at the start and nobody else, only for a verified credential whose use was recorded; which error is reported otherwise; whatever fails, the ceremony is used up |
| Ceremonies.WebauthnService.UpdatePasskeys | crates/extensions/rvoip-webauthn/src/lib.rs:266-287 | The loop saves the first passkey the result is for, for that user, or notes the use by credential id when there is none |
| Ceremonies.WebauthnService.PruneExpired | crates/extensions/rvoip-webauthn/src/lib.rs:358-366 | Removes exactly the expired entries of both tables |
| Ceremonies.TakenWasStarted | crates/extensions/rvoip-webauthn/src/lib.rs:130-356 | A successful take hands out what a start of that id stored, for that start's user, before it expires |
| Ceremonies.TakenOnce | crates/extensions/rvoip-webauthn/src/lib.rs:334-356 | With fresh ids every ceremony is taken at most once |
| Ceremonies.TakenIff | crates/extensions/rvoip-webauthn/src/lib.rs:334-366 | With fresh ids and a clock that never goes back, a take succeeds exactly when its ceremony was started, not taken since, and not expired |
| Ceremonies.PruningInvisible | crates/extensions/rvoip-webauthn/src/lib.rs:358-366 | Every take is answered as in the same run without pruning |
| Ceremonies.TokensGoToStarter | crates/extensions/rvoip-webauthn/src/lib.rs:254-294 | In every run a finish call that brings tokens brings them to the user for whom that ceremony was started, while it was pending and before it expired |
| Ceremonies.StarterGetsTokens | crates/extensions/rvoip-webauthn/src/lib.rs:254-294 | In every run with fresh ids, a finish call for a pending, unexpired ceremony whose credential verifies and whose use can be recorded brings the starter's tokens |
| Ceremonies.TokensOnce | crates/extensions/rvoip-webauthn/src/lib.rs:254-294 | With fresh ids a ceremony brings tokens at most once |
| Ceremonies.FinishIgnoresPruning | crates/extensions/rvoip-webauthn/src/lib.rs:254-366 | Every finish call is answered as in the same run without pruning |

## Left out

- Cryptography, certificate path building, JSON, X.509, URL and HTTP handling: parameters.
- Relaxed-memory effects across different atomics, `reset`, the allocator and backtraces of the memory diagnostics.
- f32 rounding, trigonometric evaluation and tone synthesis in the softphone demo; the RTP framing loop of the tone generator.
- Error message texts: errors are datatypes that keep which fault it was.
- `\u{...}` escapes of non-printing characters in the debug form of a custom rate-limit kind; `clear_namespace_for_tests`; Redis connection failures.
- Sub-millisecond parts of durations and clocks that differ between caller and server.
- What the user store, the credential store and the token issuer do behind the WebAuthn ceremonies (their answers are parameters); what follows the take in `finish_registration`.
- The HTTP-backed AKA provider, LDAP connections and binds.
- SIP, dialog and media code, event bus and configuration plumbing: not part of this model.
- Goertzel.AnalyzeTone: takes the square root of the mean square as a parameter, because the reals here have no square root function.
- Goertzel.GoertzelPower: takes cosine and sine of the step angle as a rotation, whatever the frequency.
- RateRuns.FailuresBounded: does not model counters beyond 32 bits, which the client could not parse.
- Der.ElementsIff: stands for the three parse loops through one reading function; the loops themselves are methods proved equal to it.

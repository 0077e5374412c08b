# WPMgr: verified models of its stateful cores

Dafny models of the parts of the WPMgr agent and its tools whose behaviour is hardest to see from
the code, with proofs. `dafny verify dfyconfig.toml` checks everything.

| files | component |
|---|---|
| KeystoreProtocol, Keystore, KeystoreDiscovery | how concurrent requests come to one master key over shared option rows and key files; the envelope; the probe; which source a request discovers, and rediscovers |
| Base64 | base64url between Admin and Connector |
| Connector, ReplayCache | token verification, its two-step replay check under clocks that step back, and the autologin replay table |
| CacheKeys, GroupFlush, RedisOnly, CacheSpec, CacheMeaning, ObjectCache | the Redis object cache: key names, group flushes, a cache without the per-request array as the reference, the two-level cache as a function of its state and what that does to each name, and the class proved against it |
| RedisConnection, Cooldown | the dial budget and handle ledger; the persisted back-off |
| UploadBuffer, UploadSteps | the buffer of freshly uploaded images, drains taken whole and step by step |
| PageCache, PageNames | path, host, name and key of a cached page; which requests share a name |
| CssScanner, CssRules, CssReadBack, TreeDiff | the CSS scanner, the rule loop and what it reads back from whole sheets, and the tree comparison of the Elementor round trip |
| PinFraming | the pin buffer of the kses check |
| Patterns, FetchErrors, WorkerPool, CorpusFilter | the corpus generator's worker pool, the error texts it searches, its merge and document-frequency filter |
| Strings, Wrappers | explode, implode, trim and decimals; Option and bytes |

How the models are made. Shared storage is a value changed by atomic steps, and a run is any
sequence of steps of any number of requests or goroutines. Objects whose methods update fields are
classes, and each method is proved against a function of the old state; the theorems about runs are
about those functions. Cryptography, JSON decoding, hashing, the two CSS normalisers and PHP's cast
of an out-of-range float are parameters with the few laws they need (what is sealed opens under the
same key). Clocks, network outcomes, SCAN batches and the shipper's answer are inputs that may be
anything.

Where the code and its documentation, or an expectation one may have of it, part:

- class-connector.php:184-203 says the read-only check never throws; an unreadable master key makes
  the key read throw, and nothing catches it. It throws exactly on a token of three parts with an
  unreadable key (Connector.UnreadableKeyThrows).
- Rediscovery keeps a key file at a listed path, as class-keystore.php:895-904 promises. With salts
  that are new, a key that was in the database only is given up for them, and the envelopes under it
  no longer open (KeystoreDiscovery.RediscoveryKeepsTheKey has the exact condition).
- Replay safety holds for clocks that step back at most 241 s; with 242 s it fails
  (Connector.LargerStepAdmitsReplay). It is about jtis: one token can be spelled in several ways
  (Base64.LastDigitHasSpellings, Connector.RespelledSignature).
- The cap of 2000 on the upload buffer is one on uploads only: with uploads during a drain the buffer
  reaches 2200, and more if they fall between its pop and its putting back
  (UploadSteps.CapIsExceeded, GrowsWithoutBound).
- get_multiple drops a stored null that comes from Redis but returns one that is in the array
  (CacheSpec.StoredNullReadsDifferently).
- flush_group deletes in Redis, and keeps in the array, a global key whose own key part begins with
  the group's name and a colon; agreement survives exactly without such keys
  (CacheSpec.FlushGroupRefines). replace, set, set_multiple and incr lose agreement exactly in the network
  outcomes their lemmas name. A read Redis does not answer is false unless the array has it
  (CacheSpec.AnswersAsWithoutArray gives the exact condition for equal answers).
- After a PING that fails, acquire's declared return type makes it throw a TypeError; the model's
  Acquire returns None there.
- Past 63 consecutive failures the back-off rests on an out-of-range cast
  (Cooldown.CastEndsTheCooldown).
- The host pattern's `$` also admits one newline at the end; PageCache.Accepted says so, and the key
  stays unambiguous.
- main.go:394-397 says the owner of a pattern is not counted towards the threshold; it is
  (CorpusFilter.OwnerIsCounted).
- main.go tells 404 and 429 from other errors by searching the message, which holds the slug, mostly
  the version, and the text of the error below: a 404 is not taken for one exactly when slug or
  version contain 429, and another failure is taken for one exactly when a varying part of its text
  contains 404 and none contains 429 (WorkerPool.MarkedUnavailable, FetchErrors.FindsInText).
- The page cache's names do not tell all variants apart; PageNames has the collisions and the
  condition under which they do.

Assumptions stated in contracts: constants and salts do not change, and an option row whose value is
empty holds no key (KeystoreProtocol.EmptyRowsHoldNothing); for discovery, what is encoded decodes to
itself and is not empty (KeystoreDiscovery.EncodingsWork); nothing else deletes rows or key files;
the tokens presented with one jti have one expiry, as they do if the control plane signs one
payload per jti, and the jti table works (Connector.JtiFixesExpiry, OnePayloadFixesExpiry,
WorkingTable). Connector checks and then inserts in two statements, so its
theorem is about calls that do not overlap; ReplayCache's is about single statements in any
interleaving.

## Model

| member | source | states |
|---|---|---|
| KeystoreProtocol.Agreement | apps/agent/includes/class-keystore.php:872-937 | in every interleaving of the single row and file operations of any number of requests, from any rows and files left behind (malformed, empty or partly written), two requests that obtain a master key obtain the same one |
| KeystoreProtocol.KeyOutlivesItsRequest | apps/agent/includes/class-keystore.php:988-1035 | a key obtained at one moment is the key every later request obtains, and the pinned source still stands for it |
| KeystoreProtocol.MarkerIsStable | apps/agent/includes/class-keystore.php:1079-1102 | once a well-formed source marker is stored it never changes, and the key it stands for, once there, never changes either |
| KeystoreProtocol.RunKeepsInvariant | apps/agent/includes/class-keystore.php:872-937 | every turn of every request keeps the protocol invariant: what each program point may rely on about rows, files and its own file |
| KeystoreProtocol.StepKeeps | apps/agent/includes/class-keystore.php:664-688 | one atomic step (insert if absent, fill if empty, compare-and-swap of malformed bytes, exclusive create, write, read back) keeps stored well-formed rows, whole key files and other requests' files |
| KeystoreProtocol.FirstRequestCreatesKeyFile | apps/agent/includes/class-keystore.php:1113-1140 | with the constant defined and nothing stored, one request alone creates the key file, pins the constant and obtains that file's key |
| KeystoreProtocol.NextRequestRecreatesKeyFile | apps/agent/includes/class-keystore.php:988-1035 | a source pinned to the constant whose file is missing is created again, with that request's own key |
| KeystoreProtocol.OutsideDeletionBreaksAgreement | apps/agent/includes/class-keystore.php:1123-1130 | so agreement needs that nothing else deletes key files: a run with one such deletion in which two requests hold different keys |
| KeystoreDiscovery.RequestDiscovers | apps/agent/includes/class-keystore.php:872-937 | a request that goes on alone from a row that decodes to nothing (absent, empty or malformed), with the operations its files and directories allow, pins exactly the source Discovery names, in every state the other requests left, and obtains its key: the constant's file, found or created; else the first listed path that holds a readable whole key; else the salts; else the first candidate in a usable directory that is absent (created) or holds a key; else the database key; or it fails with nothing changed |
| KeystoreDiscovery.DiscoveredKeyLasts | apps/agent/includes/class-keystore.php:872-937 | from then on that marker stays, and every request of every later schedule that obtains a key obtains the discovered one |
| KeystoreDiscovery.RediscoveryKeepsTheKey | apps/agent/includes/class-keystore.php:890-904 | with the marker lost and the salts added, changed or removed, discovery finds the same source and key exactly when the source was the constant or a file among the listed paths, or the salts are as they were, or are missing and were not the source |
| KeystoreDiscovery.PinnedSourceIsHonoured | apps/agent/includes/class-keystore.php:988-1035 | a pinned source gives the key probe finds there, creates the constant's missing file, or fails; it never goes on to another source |
| KeystoreDiscovery.ProbeForetellsDiscovery | apps/agent/includes/class-keystore.php:953-977 | what probe finds without a marker against what a request would establish there, in every case: the same key unless the constant's file can be created, a candidate comes before the database, or the database key is disabled |
| KeystoreDiscovery.UnreadableDatabase | apps/agent/includes/class-keystore.php:953-977 | with an unreadable database the read fails exactly when no earlier source is there, or the pinned source is the database |
| KeystoreDiscovery.ShortWriteLeavesNoFile | apps/agent/includes/class-keystore.php:1314-1345 | a write that persists fewer than 32 bytes leaves the storage as it was and gives no key |
| KeystoreDiscovery.FailedOperationGivesNothing | apps/agent/includes/class-keystore.php:872-1102 | a read, query or write that fails changes nothing, and a failed read of a row ends the request; no marker, and but for the salts and a key already written no key and no pinning, comes of it |
| Keystore.EnvelopeRoundTrip | apps/agent/includes/class-keystore.php:210-255 | decrypting an envelope under the key that sealed it gives the plaintext back, for every plaintext and every nonce of the right length |
| Keystore.EnvelopeOpensInLaterRequests | apps/agent/includes/class-keystore.php:241-255 | whatever interleaving established the key, an envelope one request seals opens in every later request |
| Keystore.Probe | apps/agent/includes/class-keystore.php:282-362 | probe's verdict branch by branch: absent, unreadable or ok exactly when the item's envelope opens under the existing key; PROBE_OK exactly when all stored items open; it is given the storage as a value and can write nothing |
| Keystore.CollectStored | apps/agent/includes/class-keystore.php:295-320 | the first loop keeps the list order, records every stored item and a first verdict on each |
| Keystore.OpenStored | apps/agent/includes/class-keystore.php:338-362 | the second loop marks each stored item ok exactly when its envelope opens, and lists those that do not |
| Keystore.ProbeSeesTheKeyRequestsUse | apps/agent/includes/class-keystore.php:953-977 | after any interleaving in which a request obtained a key, the key probe judges by is that key |
| Keystore.ProbeSeesThePinnedKey | apps/agent/includes/class-keystore.php:953-1035 | with a source pinned and its key material there, probe finds that key before any request and after any schedule, and every request that obtains a key obtains that one |
| Base64.UrlRoundTrip | apps/agent/includes/class-connector.php:465-475 | base64UrlDecode of base64UrlEncode gives the bytes back, for every byte string and so for all three residues of the padding |
| Base64.RoundTrip | apps/agent/includes/class-connector.php:472-474 | strict base64 decoding undoes base64 encoding (sections 4 and 10 of RFC 4648) |
| Base64.BlanksDoNotCount | apps/agent/includes/class-connector.php:472-474 | strict decoding skips a blank, tab or line end wherever it stands |
| Base64.OthersAreRefused | apps/agent/includes/class-connector.php:472-474 | and refuses any other character outside the alphabet |
| Base64.UrlEncodeIsUnpadded | apps/agent/includes/class-admin.php:323-326 | stripping the padding after translating the alphabet is translating the unpadded encoding: no character of the data is stripped |
| Base64.SextetsSpellTheBits | apps/agent/includes/class-admin.php:323-326 | the digits of an encoding spell the bits of its bytes, most significant first, with 4 or 2 zero bits after a last group of one or two bytes (section 4 of RFC 4648) |
| Base64.LastDigitHasSpellings | apps/agent/includes/class-connector.php:465-475 | decoding is not injective: in a text of 4k + 2 digits, as of a 64-byte signature, the last digit has four bits that do not matter |
| Connector.NoJtiAcceptedTwice | apps/agent/includes/class-connector.php:98-181 | over any run of calls in any number of workers, from any table, no jti is accepted in two different requests, however the tokens that carry it are spelled, while no clock reading is more than 241 s below an earlier one and the tokens presented with that jti have one expiry |
| Connector.NoTokenAcceptedTwice | apps/agent/includes/class-connector.php:98-181 | in particular no token, taken as a string, is |
| Connector.OnePayloadFixesExpiry | apps/agent/includes/class-connector.php:98-161 | the tokens presented with a jti have one expiry if the control plane signs one payload for it, whatever becomes of the signature segment |
| Connector.RespelledSignature | apps/agent/includes/class-connector.php:110-135 | two spellings of one signature pass or fail every check alike, so the string does not name the token |
| Connector.SecondExpiryAdmitsReplay | apps/agent/includes/class-connector.php:372-396 | one expiry per jti is needed: on a clock that never steps back a second token with the same jti is accepted 302 s later |
| Connector.LargerStepAdmitsReplay | apps/agent/includes/class-connector.php:372-396 | the bound is exact: a run with one step of 242 s back accepts one token in two requests |
| Connector.RowStays | apps/agent/includes/class-connector.php:343-396 | the row of a recorded jti stays in the table, with an expiry at least 300 s ahead, until a clock reading passes it |
| Connector.AcceptanceOrigin | apps/agent/includes/class-connector.php:98-181 | every acceptance goes back to one call of its own request that recorded the jti in the table |
| Connector.AcceptedClaims | apps/agent/includes/class-connector.php:163-181 | an accepted call returns exactly the claims that the call of its own request which recorded the jti had checked |
| Connector.RepeatIsAccepted | apps/agent/includes/class-connector.php:163-172 | a call that presents a jti accepted before in its own request, with no other request in that worker between, is accepted with the same claims |
| Connector.RepeatedCommand | apps/agent/includes/class-connector.php:306-334 | and a repeated call with the same token, site and command gives the same result |
| Connector.CheckAccepts | apps/agent/includes/class-connector.php:98-161 | a token passes exactly when it has three parts, a 64-byte signature that verifies under a 32-byte key, alg EdDSA, a numeric exp ahead by at most 60 s, and a non-empty jti |
| Connector.BindAccepts | apps/agent/includes/class-connector.php:306-334 | claims bind exactly when site id and command are not empty and equal aud and cmd |
| Connector.RecordedTwice | apps/agent/includes/class-connector.php:372-396 | two recordings of one jti have a clock reading past the first row's expiry between them |
| Connector.CheckedToken | apps/agent/includes/class-connector.php:98-161 | a token that passes is unexpired and at most 60 s ahead, and what it carries does not depend on the key or the clock |
| Connector.TwoPathsAgree | apps/agent/includes/class-connector.php:204-287 | with a jti new to request and table, validateCommandSignature answers true exactly when verifyCommand returns claims, unless it throws |
| Connector.UnreadableKeyThrows | apps/agent/includes/class-connector.php:204-287 | it throws exactly on a token of three parts while the stored key cannot be read |
| Connector.Verifier.Verify | apps/agent/includes/class-connector.php:98-181 | the method over the static cache and the table computes VerifyStep, the step the run theorems are about (AcceptedClaims, RepeatIsAccepted and CheckAccepts say what that step returns) |
| Connector.Verifier.VerifyCommand | apps/agent/includes/class-connector.php:306-334 | verify's effect on cache and table, and its claims only if the site id and the command agree |
| Connector.Verifier.RecordJti | apps/agent/includes/class-connector.php:372-396 | prunes expired rows, then inserts unless the jti is there; without a database handle nothing changes |
| Connector.Verifier.IsJtiSeen | apps/agent/includes/class-connector.php:343-364 | says yes exactly for an unexpired row of that jti |
| ReplayCache.SecondMarkNeedsPrune | apps/agent/includes/class-replay-cache.php:94-134 | in any interleaving of single inserts and deletes, two successful marks of one jti have a prune past the first row's expiry between them |
| ReplayCache.MarkedIsSeen | apps/agent/includes/class-replay-cache.php:52-85 | until such a prune, seen says yes about a marked jti on exactly the clock readings up to the row's expiry |
| ReplayCache.Cache.Mark | apps/agent/includes/class-replay-cache.php:94-134 | succeeds exactly when no row has the hash, adds exactly that row, and leaves the table alone otherwise |
| ReplayCache.Cache.Prune | apps/agent/includes/class-replay-cache.php:171-191 | removes exactly the expired rows and returns how many |
| CacheKeys.KeysAreUnambiguous | apps/agent/assets/wpmgr-object-cache-dropin.php:2649-2663 | for groups without a colon and no global group named by a numeral, equal key names come from equal scope, group and key |
| CacheKeys.Segments | apps/agent/assets/wpmgr-object-cache-dropin.php:2649-2663 | a name split at colons is the prefix, the blog number if any, the group, and the pieces of the key |
| CacheKeys.GlobalNamedByNumeral | apps/agent/assets/wpmgr-object-cache-dropin.php:2649-2663 | a global name that is also a per-blog name has that blog's number for its group |
| CacheKeys.ColonGroupsCollide | apps/agent/assets/wpmgr-object-cache-dropin.php:2649-2663 | the first condition is needed: every key of every group with a colon has the name of a key of another group |
| CacheKeys.NumeralGroupsCollide | apps/agent/assets/wpmgr-object-cache-dropin.php:2649-2663 | and the second: every key of every group of a blog has the name of a key of the global group named by the blog's number |
| CacheKeys.MemoKeysAreUnambiguous | apps/agent/assets/wpmgr-object-cache-dropin.php:2649-2663 | memo keys never collide, whatever the group is called |
| CacheKeys.SanitizePrefix | apps/agent/assets/wpmgr-object-cache-dropin.php:2707-2714 | allowed characters only, 1 to 32 of them, and a prefix already of that form is unchanged |
| CacheKeys.PrefixCharacters | apps/agent/assets/wpmgr-object-cache-dropin.php:2707-2714 | character by character: unsafe ones become an underscore and the first 32 are kept |
| CacheKeys.GroupIsTrimmedText | apps/agent/assets/wpmgr-object-cache-dropin.php:2694-2699 | the group in use is the text from the first character that is no blank to the last, or "default" when that is "" or "0" |
| CacheKeys.CleanGroupStays | apps/agent/assets/wpmgr-object-cache-dropin.php:2694-2699 | every group has such a text, and one that neither begins nor ends with a blank and is neither "" nor "0" is its own |
| Strings.TrimRemovesBlanks | apps/agent/assets/wpmgr-object-cache-dropin.php:2694-2699 | trim is stated by positions: what stands between the first and the last character that is no blank |
| GroupFlush.ExactlyTheGroup | apps/agent/assets/wpmgr-object-cache-dropin.php:2999-3065 | the two globs with the segment filter delete exactly the keys whose second segment of at least three, or third of at least four, is the group |
| GroupFlush.DeletesTheGroup | apps/agent/assets/wpmgr-object-cache-dropin.php:2999-3015 | every key of the group goes, for every blog and the global scope |
| GroupFlush.KeepsOtherBlogGroups | apps/agent/assets/wpmgr-object-cache-dropin.php:3024-3065 | a per-blog key of another group is deleted exactly when the flushed name is that blog's number |
| GroupFlush.KeepsOtherGlobalGroups | apps/agent/assets/wpmgr-object-cache-dropin.php:3024-3065 | a global key of another group is deleted exactly when its own key part begins with the flushed name and a colon |
| GroupFlush.PrefixFlushIsExact | apps/agent/assets/wpmgr-object-cache-dropin.php:2955-2990 | a prefix flush deletes a key exactly when it was named under that prefix |
| CacheSpec.CacheRefinesRedisOnly | apps/agent/assets/wpmgr-object-cache-dropin.php:1592-2291 | over any sequence of calls of a single-site request, whatever becomes of the reads, the array agrees with Redis, Redis is as a cache without the array leaves it, and every answer comes from what that cache holds: a hit or an answered read its value, an unanswered read without a hit false |
| CacheSpec.AnswersAsWithoutArray | apps/agent/assets/wpmgr-object-cache-dropin.php:1842-1996 | the answers of a run are those of a cache without the array exactly when every read is answered, a hit, of a non-persistent group, or of a key Redis does not hold, and get_multiple hits no null |
| CacheSpec.StepRefines | apps/agent/assets/wpmgr-object-cache-dropin.php:1592-2291 | the same for one call |
| CacheSpec.AddRefines | apps/agent/assets/wpmgr-object-cache-dropin.php:1592-1636 | add answers and acts as without the array, also when its command throws |
| CacheSpec.AddsMean | apps/agent/assets/wpmgr-object-cache-dropin.php:1592-1704 | add and replace in terms of both maps: only where nothing is, only where something is, what each answers, and what a command that throws may leave behind; the methods of the class ensure the same |
| CacheSpec.SetsMean | apps/agent/assets/wpmgr-object-cache-dropin.php:1712-2058 | set and delete likewise |
| CacheSpec.ReadsMean | apps/agent/assets/wpmgr-object-cache-dropin.php:1842-2199 | get takes a hit unless forced, else what Redis answers; incr stores the sum, never below zero, in place of what was there |
| CacheSpec.ReplaceRefines | apps/agent/assets/wpmgr-object-cache-dropin.php:1664-1705 | replace: agreement is lost exactly when the command threw after taking effect and left another value behind in the array |
| CacheSpec.SetRefines | apps/agent/assets/wpmgr-object-cache-dropin.php:1712-1750 | set: likewise |
| CacheSpec.GetRefines | apps/agent/assets/wpmgr-object-cache-dropin.php:1842-1900 | get returns what Redis holds, from the array or from an answered read; found is claimed for every value but false |
| CacheSpec.DeleteRefines | apps/agent/assets/wpmgr-object-cache-dropin.php:2004-2040 | delete removes the value on both levels and answers as without the array |
| CacheSpec.IncrRefines | apps/agent/assets/wpmgr-object-cache-dropin.php:2066-2130 | incr and decr: agreement is lost exactly when a value is found, the server refuses the SET, whose answer is not looked at, and the new value differs |
| CacheSpec.SetManyRefines | apps/agent/assets/wpmgr-object-cache-dropin.php:1758-1833 | set_multiple is one set after another in storage and answers; agreement is lost exactly when the pipeline threw and what took effect of it left the array another value |
| CacheSpec.GetManyKeepsAgreement | apps/agent/assets/wpmgr-object-cache-dropin.php:1909-1996 | get_multiple changes neither Redis nor a non-persistent group, and the array goes on agreeing |
| CacheSpec.GetManyRefines | apps/agent/assets/wpmgr-object-cache-dropin.php:1909-1996 | one name's value in get_multiple is what a cache without the array returns, save a stored null in the array |
| CacheSpec.StoredNullReadsDifferently | apps/agent/assets/wpmgr-object-cache-dropin.php:1957-1984 | the exception is real: null set through the cache reads as false through MGET and as null through the array |
| CacheSpec.FlushGroupRefines | apps/agent/assets/wpmgr-object-cache-dropin.php:2261-2291 | after flush_group the array agrees with Redis, also when the flush throws part way, if it holds no global key whose own part begins with the group and a colon; after a complete flush of a persistent group only if |
| CacheMeaning.GetManyMeans | apps/agent/assets/wpmgr-object-cache-dropin.php:1909-1996 | name by name: the array's value unless forced, else a reply that is neither null nor false, which the array takes over; nothing else changes |
| CacheMeaning.GetManyAsks | apps/agent/assets/wpmgr-object-cache-dropin.php:1909-1996 | Redis is asked, and the reconnect of the request used up, only for names the array does not answer |
| CacheMeaning.SetManyMeans | apps/agent/assets/wpmgr-object-cache-dropin.php:1758-1833 | when the pipeline completes, every name not refused has the last value given for it, in Redis and in the array, and every other name is as it was |
| CacheMeaning.SetManyAnswers | apps/agent/assets/wpmgr-object-cache-dropin.php:1758-1833 | one answer to each pair: true exactly for a non-persistent group or a completed pipeline that did not refuse the name, and the last pair under a name is what the array then holds |
| CacheMeaning.FlushMeans | apps/agent/assets/wpmgr-object-cache-dropin.php:2209-2240 | the array is emptied; a flush that completes takes everything out of Redis, or exactly the names that begin with the prefix and a colon |
| CacheMeaning.FlushGroupMeans | apps/agent/assets/wpmgr-object-cache-dropin.php:2261-2291 | by segments: the array loses exactly the names of the group here, Redis exactly those of every blog when the flush completes, and never any other |
| CacheSpec.ForeignKeyBreaksAgreement | apps/agent/assets/wpmgr-object-cache-dropin.php:2999-3065 | with such a key a complete flush leaves the array with a value Redis no longer has |
| ObjectCache.Cache.BuildKey | apps/agent/assets/wpmgr-object-cache-dropin.php:2649-2663 | the memoised key name is the unmemoised one in every reachable state, and the call changes nothing but the memo |
| ObjectCache.Cache.GroupsAreApart | apps/agent/assets/wpmgr-object-cache-dropin.php:2649-2699 | raw groups whose trimmed texts differ and are neither "", "0" nor "default" have different names for every two keys |
| ObjectCache.Cache.KeysAreApart | apps/agent/assets/wpmgr-object-cache-dropin.php:2649-2663 | two keys of one group have different names |
| ObjectCache.ValidKeyHasText | apps/agent/assets/wpmgr-object-cache-dropin.php:2804-2826 | a key is valid exactly when some character of it is no blank |
| ObjectCache.GlobalGroupsAreShared | apps/agent/assets/wpmgr-object-cache-dropin.php:2649-2663 | a key of a global group has the same name on every blog |
| ObjectCache.BlogsAreApart | apps/agent/assets/wpmgr-object-cache-dropin.php:2649-2663 | keys of other groups have different names on different blogs |
| ObjectCache.Cache.SwitchToBlog | apps/agent/assets/wpmgr-object-cache-dropin.php:2341-2359 | sets the blog and keeps every memoised name right |
| ObjectCache.Cache.AddGlobalGroup | apps/agent/assets/wpmgr-object-cache-dropin.php:2367-2378 | adds one group and keeps every memoised name right |
| ObjectCache.Cache.IsNonPersistent | apps/agent/assets/wpmgr-object-cache-dropin.php:2723-2742 | matches the list and the wildcards, remembered or not |
| ObjectCache.Cache.AddNonPersistentGroup | apps/agent/assets/wpmgr-object-cache-dropin.php:2387-2396 | a group once reported non-persistent stays so |
| ObjectCache.Cache.Add | apps/agent/assets/wpmgr-object-cache-dropin.php:1592-1636 | takes array and Redis to CacheSpec.Add of the old ones, with its answer |
| ObjectCache.Cache.Replace | apps/agent/assets/wpmgr-object-cache-dropin.php:1664-1705 | takes array and Redis to CacheSpec.Replace of the old ones |
| ObjectCache.Cache.Set | apps/agent/assets/wpmgr-object-cache-dropin.php:1712-1750 | takes array and Redis to CacheSpec.Set of the old ones |
| ObjectCache.Cache.Get | apps/agent/assets/wpmgr-object-cache-dropin.php:1842-1900 | takes array and Redis to CacheSpec.Get of the old ones, with value and found |
| ObjectCache.Cache.Delete | apps/agent/assets/wpmgr-object-cache-dropin.php:2004-2040 | takes array and Redis to CacheSpec.Delete of the old ones |
| ObjectCache.Cache.Incr | apps/agent/assets/wpmgr-object-cache-dropin.php:2066-2198 | takes array and Redis to CacheSpec.Incr of the old ones; decr is incr of the negated offset |
| ObjectCache.Cache.SetMultiple | apps/agent/assets/wpmgr-object-cache-dropin.php:1758-1833 | takes array and Redis to CacheSpec.SetMany, and answers true for exactly the pairs stored |
| ObjectCache.Cache.GetMultiple | apps/agent/assets/wpmgr-object-cache-dropin.php:1909-1996 | takes the array to CacheSpec.GetMany of the old one, and each key's value is the one of CacheSpec.GetManyValue |
| ObjectCache.Cache.Read | apps/agent/assets/wpmgr-object-cache-dropin.php:2838-2886 | one attempt, and after a failure a second one on a new connection; a request dials again at most once |
| ObjectCache.Cache.ExecuteScanFlush | apps/agent/assets/wpmgr-object-cache-dropin.php:2955-2990 | deletes exactly the keys that match, however SCAN batches and repeats them |
| ObjectCache.Cache.ExecuteScanFlushWithGroupFilter | apps/agent/assets/wpmgr-object-cache-dropin.php:3024-3065 | deletes exactly the matching keys whose segment is the group |
| ObjectCache.Cache.FlushGroup | apps/agent/assets/wpmgr-object-cache-dropin.php:2261-2291 | takes array and Redis to CacheSpec.FlushGroup of the old ones, also when the flush throws part way |
| ObjectCache.Cache.Flush | apps/agent/assets/wpmgr-object-cache-dropin.php:2209-2240 | takes array and Redis to CacheSpec.Flush of the old ones |
| RedisConnection.Connection.RunCalls | apps/agent/assets/wpmgr-object-cache-dropin.php:622-716 | over any run of acquire, markDegraded, recordSuccess and close with any failures: at most 12 dials, every handle ever dialled is closed or is the one in the field, and never two open |
| RedisConnection.Connection.Connect | apps/agent/assets/wpmgr-object-cache-dropin.php:784-924 | the handle returned is the last dialled and comes from the first attempt that constructs, connects, authenticates, selects and sets its options; none is returned exactly when the attempts or the 12 dials are used up before one does; one dial for each handle constructed, and every other handle is closed |
| RedisConnection.Connection.Acquire | apps/agent/assets/wpmgr-object-cache-dropin.php:622-643 | returns the held handle, pinged when idle, or a freshly dialled one from the first attempt that succeeds, never a closed one; closes a degraded handle before dialling |
| RedisConnection.Connection.MaybePing | apps/agent/assets/wpmgr-object-cache-dropin.php:1079-1101 | an idle handle that does not answer is closed and given up; any other is kept |
| Cooldown.GapsDouble | apps/agent/assets/wpmgr-object-cache-dropin.php:3202-3243 | with Redis down, at least min(15 * 2^(n-1), 300) s pass between the failure of dial n and dial n+1, for n up to 63 |
| Cooldown.WindowHoldsFewDials | apps/agent/assets/wpmgr-object-cache-dropin.php:3202-3243 | any window of T seconds holds at most 5 + T/300 failed dials |
| Cooldown.FiveDialsIn225Seconds | apps/agent/assets/wpmgr-object-cache-dropin.php:3202-3243 | that bound is reached: boots at 0, 15, 45, 105 and 225 s all dial |
| Cooldown.FileRecordsDials | apps/agent/assets/wpmgr-object-cache-dropin.php:3236-3243 | the file holds the time of the last failed dial and the number of them |
| Cooldown.RefusalIsBounded | apps/agent/assets/wpmgr-object-cache-dropin.php:3202-3229 | no boot 300 s or more after the last failure is refused, and none whose clock is before it |
| Cooldown.CastEndsTheCooldown | apps/agent/assets/wpmgr-object-cache-dropin.php:3214-3227 | with more than 63 failures recorded, no boot is ever refused exactly when the cast of the power gives 0 or less |
| Cooldown.StateFile.CheckCooldown | apps/agent/assets/wpmgr-object-cache-dropin.php:3202-3229 | refuses exactly a boot inside the back-off of a plausible recorded failure |
| Cooldown.StateFile.Boot | apps/agent/assets/wpmgr-object-cache-dropin.php:1468-1513 | a refused boot dials nothing and writes nothing; a failed dial is recorded with the clock read after it; a successful one clears the file |
| UploadBuffer.NothingIsLost | apps/agent/includes/class-auto-optimize-upload.php:221-440 | over any serialised run of uploads and drains with any ship results the buffer stays within 2000 and every id is pending, acknowledged, or was dropped by the cap as the oldest entry |
| UploadBuffer.LedgerIsTrue | apps/agent/includes/class-auto-optimize-upload.php:221-440 | and the ledger says what happened: an id is uploaded, acknowledged or dropped exactly when an upload of it, an acknowledged drain whose batch holds it, or an upload into a full buffer of which it is the oldest entry is among the events |
| UploadBuffer.BatchFacts | apps/agent/includes/class-auto-optimize-upload.php:304-365 | a drain ships at most 200 distinct ids, and batch and overflow together are exactly the pending ids |
| UploadBuffer.OldestShipFirst | apps/agent/includes/class-auto-optimize-upload.php:304-365 | batch and overflow are the pending ids in the order in which each first came in |
| UploadBuffer.FailedDrainKeepsIds | apps/agent/includes/class-auto-optimize-upload.php:340-365 | a failed drain leaves the set of pending ids unchanged |
| UploadBuffer.SuccessfulDrainTakesTheBatch | apps/agent/includes/class-auto-optimize-upload.php:304-365 | a successful drain removes exactly its batch |
| UploadBuffer.DrainsEmptyTheBuffer | apps/agent/includes/class-auto-optimize-upload.php:304-365 | k successful drains without uploads empty the buffer exactly when it has at most 200 k distinct ids |
| UploadBuffer.Buffer.Drain | apps/agent/includes/class-auto-optimize-upload.php:304-365 | hands the shipper the batch and leaves the option as Drained says; nothing happens unenrolled or with nothing pending |
| UploadSteps.NothingIsLost | apps/agent/includes/class-auto-optimize-upload.php:304-440 | over any run of single steps, with uploads between the steps of a drain and drains killed at any of them, every id is pending, held by the drain, acknowledged, cut off by the cap, or was held by a killed drain |
| UploadSteps.StaysNearCap | apps/agent/includes/class-auto-optimize-upload.php:304-440 | the buffer is at most 2200 long at all times, and at most 2000 while a batch ships, if no upload arrives between a pop and the putting back of the overflow |
| UploadSteps.CapIsExceeded | apps/agent/includes/class-auto-optimize-upload.php:340-365 | that bound is reached, so the cap of 2000 is not: a failed drain merges its batch back without cutting |
| UploadSteps.GrowsWithoutBound | apps/agent/includes/class-auto-optimize-upload.php:320-340 | with uploads in that window there is no bound: each failing drain can add 2000 |
| UploadSteps.StepsMakeADrain | apps/agent/includes/class-auto-optimize-upload.php:304-365 | with nothing in between, the steps are the drain of the serialised model |
| UploadBuffer.Buffer.OnGenerateMetadata | apps/agent/includes/class-auto-optimize-upload.php:221-296 | returns the metadata unchanged and buffers the id exactly when the guard is down and the image is a fresh one |
| PageCache.NormalPathShape | apps/agent/assets/wpmgr-advanced-cache.php:405-419 | a normalised path is empty or slash-joined segments, none of them empty or all dots, without backslash or NUL |
| PageCache.NormalizeIsIdempotent | apps/agent/assets/wpmgr-advanced-cache.php:405-419 | normalising twice is normalising once |
| PageCache.PrefixEntersOnlyNormalised | apps/agent/assets/wpmgr-advanced-cache.php:405-419 | the result for a/b depends only on the normalised a and on b |
| PageCache.OneMoreSegment | apps/agent/assets/wpmgr-advanced-cache.php:405-419 | a path with one more good segment normalises to the normal path and that segment |
| PageCache.DotDotUndoes | apps/agent/assets/wpmgr-advanced-cache.php:411-414 | a good segment followed by ".." leaves the normal path as before |
| PageCache.DotDotAtTheRoot | apps/agent/assets/wpmgr-advanced-cache.php:411-414 | ".." at the root changes nothing |
| PageCache.BackslashIsSlash | apps/agent/assets/wpmgr-advanced-cache.php:405-408 | a backslash separates like a slash |
| PageCache.NormalizePath | apps/agent/assets/wpmgr-advanced-cache.php:405-419 | the loop over the exploded path computes NormalPath |
| PageCache.HostSpellingIsInjective | apps/agent/assets/wpmgr-advanced-cache.php:334-342 | spelling the port's colon as an underscore never makes two accepted hosts one, and no host has a slash |
| PageCache.PlainHostsAreAccepted | apps/agent/assets/wpmgr-advanced-cache.php:334-342 | every host of letters, digits, dots and hyphens between two of the former, without two dots in a row, is accepted, with a port of at most five digits or none, and with or without a newline after it |
| PageCache.AcceptedIsPlain | apps/agent/assets/wpmgr-advanced-cache.php:334-342 | and nothing else is |
| PageCache.HostIsSpelled | apps/agent/assets/wpmgr-advanced-cache.php:334-342 | its bucket name is the host in small letters with an underscore before the port |
| PageCache.NamedHostIsPlain | apps/agent/assets/wpmgr-advanced-cache.php:334-342 | and only such a host, with or without a newline after it, has one |
| PageCache.KeyIsUnambiguous | apps/agent/assets/wpmgr-advanced-cache.php:470 | equal cache keys come from the same host, the same normalised path and the same name |
| PageCache.BuildName | apps/agent/assets/wpmgr-advanced-cache.php:222-304 | refused exactly for a logged-in visitor without the setting or for more than 12 query keys; otherwise index followed by the visitor, cookie, mobile and query parts in that order, without a slash |
| PageCache.FilteredChar | apps/agent/assets/wpmgr-advanced-cache.php:222-304 | a cookie value's text keeps lower-case letters, digits, hyphens and underscores and drops every other character |
| PageCache.FilteredOfConcat | apps/agent/assets/wpmgr-advanced-cache.php:222-304 | and it does so character by character |
| PageNames.NamesTellParts | apps/agent/assets/wpmgr-advanced-cache.php:222-304 | where roles and cookie values hold no hyphen, are no reserved word and not as long as a hash, two requests share a name exactly when the values of login, role and cookies are the same in sequence and mobile flag and query hash agree; then both are logged in or neither |
| PageNames.NamesTellVariantsApart | apps/agent/assets/wpmgr-advanced-cache.php:222-304 | so, where the same of the configured cookies are usable, exactly when login, role, cookies, mobile flag and query hash agree |
| PageNames.LoggedInCookieCollides | apps/agent/assets/wpmgr-advanced-cache.php:222-262 | the conditions are needed: a visitor whose first cookie adds -logged-in has the name of a logged-in visitor without role and without that cookie |
| PageNames.LoggedCookieCollides | apps/agent/assets/wpmgr-advanced-cache.php:222-262 | so has one whose first two cookies add -logged and -in |
| PageNames.HyphenCookiesCollide | apps/agent/assets/wpmgr-advanced-cache.php:246-262 | the values p-q, r and p, q-r of two neighbouring cookies give one name |
| PageNames.HashCookieCollides | apps/agent/assets/wpmgr-advanced-cache.php:246-304 | a last cookie that adds a query hash reads as that query |
| PageNames.MobileCookieCollides | apps/agent/assets/wpmgr-advanced-cache.php:246-277 | a last cookie that adds -mobile reads as the mobile flag |
| PageNames.AbsentCookieCollides | apps/agent/assets/wpmgr-advanced-cache.php:246-262 | a value reads the same whichever of two neighbouring configured cookies carries it, wherever they stand |
| CssScanner.SplitLosesNothing | scripts/elementor-roundtrip/harness.php:2335-2369 | joining the pieces of rt_css_split with the separator gives the string back, for every string |
| CssScanner.CutsAreTopLevel | scripts/elementor-roundtrip/harness.php:2335-2369 | piece k is the text between cut k-1 and cut k |
| CssScanner.CutsAreAllCuts | scripts/elementor-roundtrip/harness.php:2335-2369 | the cuts are exactly the separators outside quotes and brackets, in order |
| CssScanner.PlainSplitIsExplode | scripts/elementor-roundtrip/harness.php:2335-2369 | without quotes and brackets the split is explode |
| CssScanner.EnclosedTextIsWhole | scripts/elementor-roundtrip/harness.php:2335-2369 | no cut lies in a quoted text, with its escaped characters, or between matching brackets, however nested, and what follows is at the level of what came before |
| CssScanner.SeparatorAfterBalancedIsCut | scripts/elementor-roundtrip/harness.php:2335-2369 | a separator after plain characters, quoted texts and matching brackets is a cut |
| CssScanner.Split | scripts/elementor-roundtrip/harness.php:2335-2369 | the loop, which consumes an escaped pair in one turn, computes the pieces defined character by character |
| CssScanner.FirstClose | scripts/elementor-roundtrip/harness.php:2372-2397 | the first index at or after the start at which an unquoted brace brings the depth back to zero, or the last index when there is none |
| CssScanner.BlockEnd | scripts/elementor-roundtrip/harness.php:2372-2397 | the loop returns that index for every string |
| CssScanner.BlockCloses | scripts/elementor-roundtrip/harness.php:2372-2397 | a block of plain characters, quoted texts and matching braces ends at its own brace: none within and none in quotes closes it |
| CssRules.Rules | scripts/elementor-roundtrip/harness.php:2426-2480 | the loop ends on every input and yields the rules of its turns, each of which moves on |
| CssRules.TurnAt | scripts/elementor-roundtrip/harness.php:2426-2480 | every turn of the loop strictly advances within the sheet |
| CssReadBack.SheetReadsBack | scripts/elementor-roundtrip/harness.php:2426-2480 | a printed sheet of rules, conditional groups nested to any depth, skipped at-rules and statements reads back as exactly its rules, in order: each with the conditions of the groups around it, with the pieces of its prelude between top-level commas, trimmed, for selectors, and with exactly the declarations between the top-level semicolons of its body |
| CssReadBack.BracedBodyIsClosed | scripts/elementor-roundtrip/harness.php:2372-2397 | the bodies this covers: plain characters, quoted texts and matching braces |
| CssRules.MediaJoinsConditions | scripts/elementor-roundtrip/harness.php:2472-2474 | a rule's media is null exactly when no open group has a condition, else the conditions that are not empty, in order, with a blank between |
| CssRules.PropertyMeans | scripts/elementor-roundtrip/harness.php:2465-2471 | a declaration's property is what stands before its first colon, trimmed and in small letters, its value text what stands after |
| CssRules.DeclarationsKeepAllValues | scripts/elementor-roundtrip/harness.php:2465-2471 | a property is there exactly when some part declares it, with all the values the parts give it, in order; a part without a property leaves no trace |
| CssRules.ReadDeclarations | scripts/elementor-roundtrip/harness.php:2465-2471 | the loop computes the declarations that lemma is about |
| TreeDiff.NullMeansEqual | scripts/elementor-roundtrip/harness.php:318-349 | rt_diff is null exactly when the trees agree in value, scalar type and key order at every depth |
| TreeDiff.ReportsTheFirst | scripts/elementor-roundtrip/harness.php:318-349 | a reported path leads to a difference of the reported kind, and everything before it in the wanted order agrees |
| TreeDiff.CountNeverDiffers | scripts/elementor-roundtrip/harness.php:331-333 | the report about a number of items can never be made: the key checks before it already decide |
| PinFraming.BufferDeterminesPaths | scripts/page-blocks/kses-check.php:56-64 | lists of paths with newline-free names and equal buffers are equal, whatever inputs and outputs hold |
| PinFraming.BufferDeterminesCase | scripts/page-blocks/kses-check.php:213-237 | the buffer of a case is that of another case exactly when they are the same case |
| PinFraming.NewlineInNameIsAmbiguous | scripts/page-blocks/kses-check.php:56-64 | with a newline in a name, one path can have the buffer of two |
| PinFraming.PinBuffer | scripts/page-blocks/kses-check.php:56-64 | the loop builds the framing those lemmas are about |
| PinFraming.FirstDiff | scripts/page-blocks/kses-check.php:176-185 | the length of the longest common prefix |
| WorkerPool.StuckMeansDone | tools/corpus-gen/main.go:744-845 | in every interleaving of any number of workers and any answers, a run nobody can continue has finished, all workers have ended, and the results received are exactly one per slug |
| WorkerPool.EveryRunIsSafe | tools/corpus-gen/main.go:744-845 | no run sends on or closes a closed channel or drops the wait group below zero, and none is longer than 14 steps a slug plus the workers plus 4 |
| WorkerPool.SendsNeverBlock | tools/corpus-gen/main.go:751-752 | both channels always have room for what is about to be sent, and neither is closed then |
| WorkerPool.StepKeeps | tools/corpus-gen/main.go:767-845 | every step of main, a worker or the closer keeps the invariant: each slug in exactly one place, the wait group, the closing order, and manifest entries that fit the results |
| WorkerPool.StepIsProgress | tools/corpus-gen/main.go:767-845 | every step uses up part of a bounded rank |
| WorkerPool.NeverStuck | tools/corpus-gen/main.go:744-845 | while main has not finished somebody can make a step; in particular a worker waiting for the rate limiter waits for one that can go on |
| WorkerPool.RunCanFinish | tools/corpus-gen/main.go:735-853 | whatever the downloads answer and wherever a run has got to, it can be brought to its end with those answers |
| WorkerPool.WhatARunAchieves | tools/corpus-gen/main.go:769-845 | at the end a slug has patterns exactly when its result carried them, never if the manifest told to skip it, and the manifest marks as extracted exactly what it did before and those slugs |
| WorkerPool.EverySlugIsFetched | tools/corpus-gen/main.go:767-853 | fix what each attempt on each slug answers: in every finished run that got these answers, every listed slug the starting manifest does not skip has the result, the place in allPatterns and the manifest entry of its deciding attempt |
| WorkerPool.FirstDeliveryCounts | tools/corpus-gen/main.go:782-833 | in particular a first attempt that delivers puts its patterns in allPatterns |
| WorkerPool.YieldIsDecided | tools/corpus-gen/main.go:788-815 | the answer that counts there is the one of the deciding attempt of MarkedUnavailable |
| WorkerPool.MarkedUnavailable | tools/corpus-gen/main.go:788-815 | over three attempts with any outcomes: the first that is not a failure with 429 in a varying part of its text decides, and it marks the slug unavailable exactly if it is a 404 or a failure with 404 in such a part |
| WorkerPool.PlainTextsAreMarkedRightly | tools/corpus-gen/main.go:788-815 | if no varying part of the first failure has either number, exactly a 404 marks the slug |
| WorkerPool.NumbersMislead | tools/corpus-gen/main.go:788-815 | otherwise a 404 can be missed and any other failure, a network error among them, be taken for one |
| FetchErrors.FindsInText | tools/corpus-gen/main.go:313-345 | the text of any failure contains 404 or 429 exactly when a part that varies does: slug, version, status or the wrapped error; a 404 also by its own words |
| FetchErrors.FindsInNotFound | tools/corpus-gen/main.go:318-320 | the text of a 404 contains 404, and 429 exactly when the slug or the version does |
| CorpusFilter.KeptExactlyTheRare | tools/corpus-gen/main.go:398-432 | a pattern is left in a list exactly when it was there and fewer than the threshold of slugs had it in any list |
| CorpusFilter.OwnerIsCounted | tools/corpus-gen/main.go:394-432 | the slug itself counts towards the threshold, other than the comment says |
| CorpusFilter.RareKeepTheirSlugs | tools/corpus-gen/main.go:398-432 | a pattern keeps all the slugs it had or loses all |
| CorpusFilter.SuppressTwice | tools/corpus-gen/main.go:398-432 | a second pass removes nothing |
| CorpusFilter.Compact | tools/corpus-gen/main.go:417-425 | compacting a list in place leaves the kept patterns in front, in order, and the rest of the array as it was |
| CorpusFilter.SuppressByDocFreq | tools/corpus-gen/main.go:398-432 | the two loops over the slugs count and filter as the lemmas assume, in whatever order the map is walked |
| CorpusFilter.MergeFacts | tools/corpus-gen/main.go:379-391 | a merge keeps the first list in front, holds the elements of both, and repeats none unless the first list did |
| CorpusFilter.MergeKnown | tools/corpus-gen/main.go:379-391 | a merge changes nothing exactly when the first list has every element of the second |
| CorpusFilter.MergeUnique | tools/corpus-gen/main.go:379-391 | the loop with its set of seen elements computes that merge |

## Left out

- Cryptographic primitives, JSON, serialize, hashing and the browser- or WordPress-supplied values: parameters, as said above.
- Option caching, the blank-padding collation of option rows, file permissions, symbolic links and path aliases of key files: rows and files are maps with atomic steps.
- Keystore.Probe: does not give the detail texts, nor the answer when the crypto extension is missing; KeystoreDiscovery.ProbeForetellsDiscovery lists when probe and resolve differ with nothing pinned.
- KeystoreProtocol.Agreement: does not claim that a request obtains a key; one whose storage fails ends without.
- Connector.NoJtiAcceptedTwice: does not cover calls that overlap between the check and the insert, nor insert failures other than a duplicate, whose result the code ignores.
- CacheSpec.CacheRefinesRedisOnly: leaves out expiry and TTL clamping, other clients, serializers, blog switches inside the run and late wildcard registrations; what it asks of each call is listed at CacheSpec.Allowed.
- CacheSpec.GetRefines: does not claim found for a stored false.
- GroupFlush.ExactlyTheGroup: does not model character classes or escapes in globs; the group has no glob metacharacter.
- ObjectCache.Cache.Incr: integer overflow and the numeric cast are a parameter.
- add_multiple, delete_multiple, group casting and the failback flush of the object cache.
- The APCu store of the cool-down state and concurrent boots over the state file.
- UploadBuffer.Buffer.OnGenerateMetadata: leaves out the file-type lookup and the cron scheduling beside the buffer.
- UploadSteps.NothingIsLost: takes one read and write of the option as one step, and one drain at a time.
- PageCache.BuildName: leaves out the user-agent patterns, the query serialisation (its hash is a parameter), and the URI decoding and length cap before the path is normalised.
- CssReadBack.SheetReadsBack: does not cover a semicolon or brace inside a prelude, which the loop treats as it would outside.
- CssRules.Rules: leaves out the removal of comments before the loop; rt_css_media_norm and rt_css_value_norm are parameters.
- TreeDiff.NullMeansEqual: floats are reals, so NaN and the sign of zero are not modelled; the report is data, not its text.
- PinFraming.BufferDeterminesCase: is about the buffer; equality of pins adds a collision-free hash.
- WorkerPool.WhatARunAchieves: leaves out version and time of manifest entries, saving the manifest to disk, the download itself and dry runs; the ticker is assumed to go on ticking.
- The control plane, heartbeats, enrollment, admin screens, browser scripts, images, and the live phases of the Elementor harness.

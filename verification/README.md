# IPv6 proxy: a verified model

The proxy gives every request an outgoing IPv6 address: a fresh random one, or one that stays
the same for a session. This project models the parts of it that decide something, and proves
what they promise for all inputs, all runs and all interleavings.

| file | models | main results |
|---|---|---|
| `SingleFlight.dfy`, `WarmCache.dfy` | any number of goroutines confirming exit addresses at once, over the cache of confirmed addresses | one leader per address, no channel closed twice, no lost wakeup, bounded work, nothing left in flight; warm exactly if confirmed lately |
| `Opener.dfy` | one call of the IPv6 opener against arbitrary network, cache and cancellation | connections are conserved, the dial budget, no dial after cancellation, success and failure each for its reason |
| `Credential.dfy`, `NameText.dfy`, `Misread.dfy`, `Text.dfy` | the username protocol | the tokenizer is the exact inverse of printing canonical pieces; what every name means, said of its text; the round trip with its exact condition; what becomes of every name that misses it |
| `Limiter.dfy`, `IPBan.dfy` | the sliding-window limiter and the IP ban | pruned windows answer as the calls alone say; the window bound; bans are sound and complete, also for failures recorded late |
| `Store.dfy` | accounts and sticky sessions in Redis | sticky windows, index coherence, newest first, complete deletion |
| `Admission.dfy` | authentication, rate limit and choice of address | what each outcome touches; every address handed out was drawn from a prefix enabled then |
| `IPGen.dfy` | random addresses in a prefix | byte loops are 128-bit arithmetic; every address is equally likely |
| `Pool.dfy` | the pool of prefixes, addresses, sessions and domain rules | sessions sit on enabled addresses; round robin is fair over whole runs; growth hands out what was asked |
| `Socks5.dfy` | SOCKS5 framing (RFC 1928, RFC 1929) around admission and bans | parser and printer are inverse, byte for byte; who gets to dial |

State that the program updates in place is a class with the program's fields. Each class is
tied to a specification: a function of the old state, or a ghost list of the calls made so far
(`calls`) whose meaning is a pure function (`After`). Properties of whole runs are lemmas about
that function. Clocks, random bytes, network answers, address text and hashes are parameters.

Strings are Go's: sequences of bytes, written as characters below 256.

## What the proofs found

- Account validation reserves four of the six keywords, and none at the end of a name. The round
  trip of a printed name holds exactly if the account followed by `_` contains no keyword token
  (`Credential.StickyRoundTrip`). Every other printed name is rejected, or read as a shorter
  account with the session or without one; `Misread.PrintedIsReadAs` says which. Names printed
  for `a_sid` and `a_mode` are rejected, those for `a_st` and `a_time` lose their session and
  become names of the account `a` (`Misread.ValidationIsNotEnough`), and sessions of `a_st_b` are
  sessions of `a` (`Misread.UnreservedKeyword`).
- The comment of `RandomFrom` says a prefix is picked uniformly. The remainder it takes is
  uniform exactly if the number of prefixes divides 2^64 (`IPGen.PrefixChoiceIsUniformIff`); with
  three prefixes it is not (`IPGen.ThreePrefixesAreNotUniform`).
- A session key is its own, among those of all pairs of strings, exactly if neither the account
  nor the id holds a colon (`Store.SessKeyIsOwnIff`); valid ones never do
  (`Store.ValidPairsAreColonFree`).
- A failure's clock is read before the lock, so failures can be recorded late. Every ban has the
  threshold within one window behind it if and only if failures are late by less than a window, or
  one failure is enough for a ban (`IPBan.SoundIffPrompt`).
- Any min(Count, addresses) consecutive round-robin picks take distinct slots; they are distinct
  addresses for every rule exactly if the list names no address twice (`Pool.AddressesDifferIff`).
  It does exactly if an enabled prefix has an address twice or two enabled entries share one
  (`Pool.NoRepeatsIff`), as when a prefix is configured twice (`Pool.TwiceConfiguredRepeats`,
  `Pool.RepeatedList`).
- Switching a prefix off ends the pool's own sessions, not those in the store. A live sticky
  session goes on answering with its address; that address lies in an enabled prefix exactly if
  its own one is still enabled or another holds it too (`Admission.AnswerIsCoveredIff`,
  `Admission.SessionOutlivesPrefix`).
- Three of the four error branches of `parseFields` cannot be reached from `Parse`
  (`Credential.MatchKeywordIsToken`: what starts with a token passes them all).
- The login reader does not look at the version byte of RFC 1929, nor the request reader at the
  reserved byte (`Socks5.LoginReadsMessage`, `Socks5.RequestReadsMessage`).

## Model

| member | source | states |
|---|---|---|
| WarmCache.MarkedFacts | internal/proxy/ndp.go:78-86 | the marked address is warm and the size holds; every other entry stays with its time while there is room, in a full cache exactly the unexpired ones if they leave room, and none otherwise |
| WarmCache.NdpWarmCache.constructor | internal/proxy/ndp.go:33-45 | non-positive settings get the defaults |
| WarmCache.NdpWarmCache.WarmLocked | internal/proxy/ndp.go:66-76 | warm iff marked at most `ttl` ago; an expired entry is dropped |
| WarmCache.NdpWarmCache.Seen | internal/proxy/ndp.go:47-55 | a yes is backed by a recorded mark at most `ttl` old; never for nil |
| WarmCache.NdpWarmCache.Mark | internal/proxy/ndp.go:57-64 | marks now, nothing for nil |
| WarmCache.NdpWarmCache.MarkLocked | internal/proxy/ndp.go:78-86 | the same for the method: evicts by one clock reading only when full, resets only if still full, then marks by another |
| WarmCache.NdpWarmCache.EvictExpiredLocked | internal/proxy/ndp.go:128-135 | exactly the expired entries go |
| WarmCache.NdpWarmCache.BeginConfirm | internal/proxy/ndp.go:90-109 | warm, wait on the channel in flight, or lead with a fresh channel; exclusive; nil always leads |
| WarmCache.NdpWarmCache.FinishLocked | internal/proxy/ndp.go:115-122 | takes the channel out of flight, marks on success; the channel taken is open and no one else's |
| WarmCache.NdpWarmCache.FinishConfirm | internal/proxy/ndp.go:111-126 | closes exactly the channel taken out of flight, which was open; after success the address is warm |
| WarmCache.NdpWarmCache.CloseChan | internal/proxy/ndp.go:123-125 | only an open channel that is not in flight is closed |
| SingleFlight.RunKeepsInv | internal/proxy/dial.go:82-104 | the protocol invariant holds in every state of every interleaving |
| SingleFlight.SingleFlightSafety | internal/proxy/ndp.go:90-126 | in every run: no channel is closed twice, each address has at most one leader, each channel in flight is open and led, each waiter's channel is closed or somebody will close it |
| SingleFlight.QuiescentIsEmpty | internal/proxy/dial.go:82-104 | once all callers have returned nothing is in flight |
| SingleFlight.WarmMeansConfirmed | internal/proxy/ndp.go:66-86 | in every run, warm means a confirmation finished with success at most `ttl` ago, and the cache is within its size |
| SingleFlight.MarksAreConfirmations | internal/proxy/ndp.go:111-126 | every mark stems from a successful confirmation at that time |
| SingleFlight.ConfirmedMeansWarm | internal/proxy/ndp.go:66-86 | the converse: in every run, an address confirmed at most `ttl` ago is warm as long as the cache was never full since |
| SingleFlight.WarmIffConfirmed | internal/proxy/ndp.go:66-86 | in every run in which the cache never fills, warm iff confirmed at most `ttl` ago |
| SingleFlight.ConfirmedReturnsAtOnce | internal/proxy/dial.go:82-86 | and exactly then ensureWarm returns at its first look at the cache |
| SingleFlight.RunKeepsEntry | internal/proxy/ndp.go:78-86 | over any run that finds room, an entry stays until its `ttl` is over, also while other addresses are confirmed |
| SingleFlight.CallerIsBounded | internal/proxy/dial.go:82-104 | each caller takes at most four steps, whatever the others do and whoever arrives |
| SingleFlight.RunIsBounded | internal/proxy/dial.go:82-104 | all callers together take at most the steps that are left to them, and four more for each arrival |
| SingleFlight.SomeoneCanAct | internal/proxy/dial.go:82-104 | while a caller has not returned, some caller can step without giving up: no deadlock |
| SingleFlight.WaiterIsWoken | internal/proxy/dial.go:90-98 | the leader's remaining steps are enabled and then the waiter can leave |
| SingleFlight.LookIsSeen | internal/proxy/ndp.go:47-55 | Seen takes the cache object through the step Look, and its answer sends the caller where the step does |
| SingleFlight.BeginIsBeginConfirm | internal/proxy/ndp.go:90-109 | beginConfirm is the step Begin |
| SingleFlight.FinishIsFinishLocked | internal/proxy/ndp.go:115-122 | the locked section of finishConfirm is the step Finish |
| SingleFlight.CloseIsCloseDone | internal/proxy/ndp.go:123-125 | closing the channel is the step CloseDone, and the invariant allows it |
| Opener.OpenCall.Open | internal/proxy/dial.go:75-80 | of all connections opened only the returned one is still open; it is to the target and not a warmup one; the client is not dialled exactly if the warmup failed and the context is cancelled; no dial follows one that failed under a cancelled context; a leader reports once: success for a confirmed address, failure for a warmup that failed for its reasons |
| Opener.OpenCall.EnsureWarm | internal/proxy/dial.go:82-104 | only a leader dials, leaves nothing open and reports exactly how its warmup went; a waiter fails only by cancellation |
| Opener.OpenCall.ReportedIffConfirmed | internal/proxy/dial.go:82-104 | a finished leader reported success iff the address was confirmed, and failure iff the warmup failed |
| Opener.OpenCall.WarmupExit | internal/proxy/dial.go:106-125 | probe first, then the target unless it is the probe; success means a live connection, with data for the probe; failure means the probe was unusable, and so was the target unless it is the probe or the context was cancelled |
| Opener.OpenCall.ConfirmDial | internal/proxy/dial.go:127-146 | every connection made is closed again; it fails iff there was no connection, or it was found dead, or data was wanted and the exchange failed |
| Opener.OpenCall.DialWithColdRetry | internal/proxy/dial.go:148-172 | at most cold, retry and warm dial in this order and only for their reasons; a single cold dial that failed was not retryable or the context was cancelled; a dead connection is closed before the next dial |
| Opener.OpenCall.RedialIfDead | internal/proxy/dial.go:162-170 | a connection dead at once is closed and dialled anew, once |
| Opener.OpenCall.DialClient | internal/proxy/dial.go:174-184 | one warm dial for a warm address, else the cold procedure, to the target |
| Opener.OpenCall.Close | internal/proxy/dial.go:193-201 | only an open connection is closed, so none twice |
| Opener.ColdRetrySpent | internal/proxy/dial.go:148-172 | the timeouts of one cold procedure add up to at most cold + retry + warm |
| Opener.CallBudget | internal/proxy/dial.go:12-21 | the dials Open promises are 1 when the address was warm at every look, at most 3 for a caller that does not lead, 9 for any; timeouts within three rounds, 69 s in production |
| Credential.NextKeywordIndex | internal/credential/parse.go:237-247 | the least position of any keyword token, or -1 if there is none |
| Credential.SplitAccount | internal/credential/parse.go:180-192 | cuts before the first token |
| Credential.MatchKeywordIsToken | internal/credential/parse.go:228-235 | matching a keyword prefix and then an underscore recognises exactly the tokens |
| Credential.ReadSegment | internal/credential/parse.go:197-224 | one round of the loop: on input that starts with a token it fails exactly for an empty value, and makes progress |
| Credential.ParseFields | internal/credential/parse.go:194-226 | succeeds exactly if all values are non-empty; the last value of a keyword wins |
| Credential.TokenizeRender | internal/credential/parse.go:194-226 | canonical segments written out are read back as the same segments |
| Credential.TokenizeCanonical | internal/credential/parse.go:194-226 | the segments read concatenate to the input, and none holds a token |
| Credential.SplitIsCanonical | internal/credential/parse.go:180-226 | account and segments concatenate to the raw name, none contains a token |
| Credential.SplitInvertsRender | internal/credential/parse.go:180-226 | reading back what was written gives the same pieces iff the pieces are canonical |
| Credential.Parse | internal/credential/parse.go:54-106 | decodes mid form, plain names and segments, with each error |
| Credential.ParseName | internal/credential/parse.go:73-105 | the half of Parse after the mid form |
| Credential.FillFields | internal/credential/parse.go:81-105 | reads sid, time and mode from the fields, each checked |
| Credential.DecodedIsValid | internal/credential/parse.go:54-106 | a decoded account is valid, a decoded sid empty or valid |
| Credential.WithDefaults | internal/credential/parse.go:110-142 | exactly which mode, sid and lifetime: the name's own lifetime cut to 1 and the maximum, or else the account's default, or else 10 minutes, cut to the maximum |
| Credential.ApplyDefaults | internal/credential/parse.go:110-142 | the step by step overwriting computes WithDefaults |
| Credential.StickyRoundTrip | internal/credential/parse.go:161-169 | printing and parsing gives back account, sid and lifetime iff the account followed by `_` holds none of the six tokens |
| Credential.RotateRoundTrip | internal/credential/parse.go:161-169 | the same for a bare account name, exactly if it holds no token and is not of the mid form |
| Credential.StickyNameStaysSticky | internal/credential/parse.go:110-169 | after the account's defaults a printed sticky name is still sticky with its sid, and its lifetime if allowed |
| Credential.TrimsWholeCharacters | internal/credential/parse.go:54-58 | white space outside ASCII is trimmed as a whole character, a part of one is not and makes the name invalid |
| Credential.ForeignSegmentChangesAccount | internal/credential/parse.go:161-192 | a name printed for an account that ends in `_st_` or `_city_` and a value is read as the shorter account's, with the same sid and lifetime |
| NameText.NameMeans | internal/credential/parse.go:54-106 | for every name, by its pieces: which error it gives or that it parses; of each keyword the last value counts; a session id has 4 to 64 letters and digits, a lifetime is a number of 64 bits, a mode spells rotate or sticky |
| NameText.ModeText | internal/credential/parse.go:97-104 | on the text `account_sid_<sid>_time_<n>_mode_<v>`: rotate or sticky as v spells it in any letter case, else an error |
| NameText.ModeAlone | internal/credential/parse.go:97-104 | the same for `account_mode_<v>` |
| NameText.SidAlone | internal/credential/parse.go:83-88 | on the text `account_sid_<v>`: that session without a lifetime iff v has 4 to 64 letters and digits |
| NameText.TimeAlone | internal/credential/parse.go:89-96 | on the text `account_time_<v>`: the lifetime n iff v writes n in decimal and it fits 64 bits |
| NameText.ForeignText | internal/credential/parse.go:40-40 | the keywords zone, st and city are known and say nothing |
| NameText.MidText | internal/credential/parse.go:59-71 | `account-mid_<64 hex digits>` is that account, sticky, with the digits in lower case, and no lifetime |
| NameText.ValidNameIff | internal/credential/parse.go:144-155 | a name is valid iff it starts with a letter or digit, has only letters, digits, `.`, `_` and `-`, and none of four keywords in any letter case |
| NameText.LastSegment | internal/credential/parse.go:73-105 | what a name that ends in sid, time or mode and a value is read as, behind any other segments |
| Misread.SplitPrinted | internal/credential/parse.go:161-226 | the exact pieces of every printed sticky name, for any account: the account's own segments, and what a keyword at its end takes of the suffix |
| Misread.PrintedIsReadAs | internal/credential/parse.go:54-106 | what Parse makes of every printed sticky name of a valid account, by its pieces and the id: round trip, shorter account, lost session, or which error |
| Misread.MisreadIsShorter | internal/credential/parse.go:54-106 | a printed name that misses the round trip and still parses belongs to a proper front part of the account, with its session or none |
| Misread.TrailingKeyword | internal/credential/parse.go:42-42 | accounts of the form `x_keyword`, for each of the six keywords |
| Misread.ValidationIsNotEnough | internal/credential/parse.go:144-155 | valid names whose printed form is rejected (`a_sid`, `a_mode`) or read as another account without a session (`a_st`, `a_time`) |
| Misread.UnreservedKeyword | internal/credential/parse.go:42-42 | sessions printed for the valid name `a_st_b` are sessions of `a` |
| Text.AtoiDecimal | internal/credential/parse.go:87-94 | reading a printed number gives the number |
| Text.AtoiIff | internal/credential/parse.go:90-93 | a text is read as n iff it is n in decimal, with any sign and leading zeros, and n fits 64 bits |
| Text.TrimsWhite | internal/credential/parse.go:55-55 | white space of Unicode before and after a name is trimmed, all of it and nothing else |
| Text.LowerSpells | internal/credential/parse.go:98-100 | lower-casing gives a word iff the text spells it in any letter case, with the two letters outside ASCII that lower into it |
| Limiter.RunIsSound | internal/ratelimit/limiter.go:33-60 | in every run each admission found fewer than its limit in the window before it, and logs are in order of time |
| Limiter.WindowBound | internal/ratelimit/limiter.go:33-60 | said of the calls alone: any closed interval of one window length holds at most as many admissions of a key as the limit in force at the last of them |
| Limiter.HistoryTellsCalls | internal/ratelimit/limiter.go:33-60 | in every run the limit in force for a key is the last positive one of its SetUserLimit calls, or the default, and a request passes iff fewer admissions than that lie in the window |
| Limiter.SecondRequest | internal/ratelimit/limiter.go:45-59 | the window is closed: with a limit of one a second request passes iff more than the window has gone by |
| Limiter.AllowDecides | internal/ratelimit/limiter.go:45-59 | the length of the trimmed window decides as the calls alone do |
| Limiter.CleanupsAreInvisible | internal/ratelimit/limiter.go:123-141 | in the full history, erasing every cleanup from a run changes no answer; that the trimmed windows keep answering as the history does is Cleanup's contract |
| Limiter.AllowIsSound | internal/ratelimit/limiter.go:45-59 | the length of the trimmed window decides as the full history does, and the new window is again a trimmed history |
| Limiter.PrunedCounts | internal/ratelimit/limiter.go:45-50 | a pruned window counts what the full log counts |
| Limiter.Limiter.Expired | internal/ratelimit/limiter.go:45-49 | the longest prefix before the cutoff |
| Limiter.Limiter.Allow | internal/ratelimit/limiter.go:33-60 | admits iff fewer admissions than the limit in force, both said of the calls so far, lie in the window, and records exactly that call |
| Limiter.Limiter.Remaining | internal/ratelimit/limiter.go:63-81 | limit in force minus admissions in the window, both said of the calls; positive iff Allow would admit now |
| Limiter.Limiter.SetUserLimit | internal/ratelimit/limiter.go:92-100 | sets or, if not positive, resets the limit of a key |
| Limiter.Limiter.TrimAll | internal/ratelimit/limiter.go:129-138 | only windows with a recent entry stay, each still a faithful summary |
| Limiter.Limiter.Cleanup | internal/ratelimit/limiter.go:123-141 | forgets only expired entries, and all those at the front of a window |
| IPBan.LogCountsFailures | internal/auth/ipban.go:68-93 | the failures remembered are those since the last reset |
| IPBan.SurvivorsAreRecent | internal/auth/ipban.go:77-88 | what pruning leaves of promptly recorded failures is what lies in the window up to the newest one |
| IPBan.HeldCounts | internal/auth/ipban.go:77-88 | the pruned list has as many entries as failures survive, for times in any order |
| IPBan.BanIffThreshold | internal/auth/ipban.go:77-92 | for failures less than a window late: it bans iff the address is not listed and with it the threshold is reached within the window up to the newest failure |
| IPBan.BanInOrder | internal/auth/ipban.go:77-92 | a failure not older than those before it bans iff the address is not listed and with it the threshold is reached within the window |
| IPBan.BansIsBanned | internal/auth/ipban.go:90-92 | exactly then the ban is entered, with the failure's time |
| IPBan.SoundIffPrompt | internal/auth/ipban.go:68-93 | with failures late by d: every ban has the threshold within one window iff d is less than a window or the threshold is one |
| IPBan.LateFailureBans | internal/auth/ipban.go:68-93 | an example: a ban although no two failures lie within a window |
| IPBan.EveryBanHasACause | internal/auth/ipban.go:68-128 | every ban in every run stems from a manual ban or from enough failures, within one window if none was a window late |
| IPBan.UndisturbedCounts | internal/auth/ipban.go:68-128 | while no call ends a ban of an unlisted address or lists it, none of its failures is lost from the record |
| IPBan.EnoughFailuresBan | internal/auth/ipban.go:68-113 | enough failures within a window with no reset between them always end in a reported ban, in whatever order they are recorded |
| IPBan.StateTellsCalls | internal/auth/ipban.go:34-128 | listed, and banned since when, as the calls alone say |
| IPBan.ReportedIff | internal/auth/ipban.go:95-113 | in every run: reported iff not listed and the last ban, not lifted since, is at most a window old |
| IPBan.LiftedIsFree | internal/auth/ipban.go:34-121 | after a ban is lifted, the address listed, or an expired ban asked about, it is not reported until banned again, and earlier failures count no more |
| IPBan.SecondFailure | internal/auth/ipban.go:77-113 | the bounds: with a threshold of two the second failure bans iff less than the window has gone by, and the ban lasts exactly the window |
| IPBan.IPBan.Prune | internal/auth/ipban.go:79-86 | keeps exactly the failures after the cutoff |
| IPBan.IPBan.Recent | internal/auth/ipban.go:77-88 | the list that results is what the full record leaves, for any clock reading |
| IPBan.IPBan.RecordFailure | internal/auth/ipban.go:68-93 | records the failure whatever its time, and bans as the full record says |
| IPBan.IPBan.IsBanned | internal/auth/ipban.go:95-113 | reports iff the calls so far say that a ban is in force; never of a whitelisted address, even after a manual ban; forgets an expired ban and its failures |
| IPBan.IPBan.Ban | internal/auth/ipban.go:124-128 | bans now |
| IPBan.IPBan.Unban | internal/auth/ipban.go:115-121 | forgets ban and failures |
| IPBan.IPBan.AddWhitelist | internal/auth/ipban.go:34-42 | lists, and forgets ban and failures |
| IPBan.IPBan.RemoveWhitelist | internal/auth/ipban.go:44-49 | only unlists |
| Store.SessKeyInjective | internal/store/store.go:80-82 | distinct pairs of colon-free account and sid have distinct keys |
| Store.SessKeyIsOwnIff | internal/store/store.go:80-82 | the key of a pair is no other pair's iff neither account nor sid holds a colon |
| Store.ValidPairsAreColonFree | internal/credential/parse.go:144-159 | valid account names and session ids hold none |
| Store.FamiliesDisjoint | internal/store/store.go:80-82 | a session key is never an index key |
| Store.StepKeepsCoherent | internal/store/store.go:236-275 | every operation keeps every live session in its account's index, with the moment of its creation as score |
| Store.RunIsCoherent | internal/store/store.go:236-337 | so does every run, from any coherent state |
| Store.DropAccountIsComplete | internal/store/store.go:187-199 | after it the account has no live session and no name, and every other account exactly the sessions it had, unchanged |
| Store.ClearIsComplete | internal/store/store.go:320-337 | after it no registered account has a live session; others keep theirs unchanged |
| Store.DropIsExact | internal/store/store.go:313-318 | one session and its index entry are gone, every other stays as it was |
| Store.ListIsExact | internal/store/store.go:293-311 | after listing, the index holds exactly the ids of live sessions |
| Store.WindowStep | internal/store/store.go:236-253 | one operation leaves address, creation and expiry of a live session alone, and counts a hit and moves its last use exactly for a call for it |
| Store.StickyWindow | internal/store/store.go:236-275 | from creation to expiry, whatever runs in between except a deletion: every call for the pair gets the first caller's address, the expiry never moves, hits count the calls, the last use is the last call's |
| Store.NewSession | internal/store/store.go:236-253 | without a live session the caller's address starts a window of its own that lives exactly its lifetime; every field, and the index entry |
| Store.NamesAreRegistered | internal/store/store.go:128-199 | in every run the registered names are those whose last registration was not followed by a deletion |
| Store.Loaded | internal/store/store.go:102-111 | a loaded account has a mode and positive lifetimes, 10 and 180 where none was stored; all else is as stored |
| Store.NormalizeAccount | internal/store/store.go:373-386 | exactly which mode, maximum and default lifetime are stored; what obeys all limits is unchanged |
| Store.Store.constructor | internal/store/store.go:70-78 | the key prefix ends with a colon, `ipv6p:` by default |
| Store.Store.GetAccount | internal/store/store.go:84-112 | not found, or the stored account with defaults filled in |
| Store.Store.Authenticate | internal/store/store.go:114-126 | succeeds iff the account exists, is enabled and the password matches; each failure for its reason |
| Store.Store.CreateAccount | internal/store/store.go:128-152 | registers iff the name is valid, a password is given and the name is free; mode, limits, lifetimes and the enabled flag stored are those given, normalized; the creation time is kept or now, others untouched |
| Store.Store.GetOrCreateSticky | internal/store/store.go:255-275 | the script: the live session's address with one more hit, or the candidate with a new session and index entry |
| Store.RevRange | internal/store/store.go:294-294 | all ids once, by falling score, and of equal scores the later text first |
| Store.RowsAreListing | internal/store/store.go:298-309 | the rows collected are exactly the live sessions, each once, newest first |
| Store.ListingShows | internal/store/store.go:293-311 | in every coherent state: each live session once, with its fields and the seconds left, by falling time of creation |
| Store.PurgedIs | internal/store/store.go:301-304 | removing dead ids one by one removes exactly those |
| Store.Store.ListStickyByAccount | internal/store/store.go:293-311 | exactly the live sessions, each once, newest first, and the index left equal to them |
| Store.Store.DeleteSticky | internal/store/store.go:313-318 | session and index entry are gone, nothing else |
| Store.ListThenDropWipes | internal/store/store.go:187-196 | listing and deleting one by one equals wiping the account at once |
| Store.WipeOneMore | internal/store/store.go:325-335 | wiping accounts one after the other equals wiping them together |
| Store.Store.WipeSticky | internal/store/store.go:188-194 | the shared loop wipes one account |
| Store.Store.DeleteAccount | internal/store/store.go:187-199 | sessions, index, account and name are gone, nothing else |
| Store.Store.ClearSticky | internal/store/store.go:320-337 | all listed sessions of all registered accounts are gone, nothing else |
| Admission.SettledFacts | internal/proxy/runtime.go:56-62 | sticky iff the name does not say rotate and it, or a header allowed by name or account, gives a valid id; the lifetime is the name's or else the account's, within its limits |
| Admission.PrintedNameIsHonoured | internal/proxy/runtime.go:44-62 | a printed sticky name is admitted as what it says, whatever defaults and headers |
| Admission.SidGetsDefaultLifetime | internal/proxy/runtime.go:44-62 | `account_sid_<sid>` is admitted as sticky for the account's default lifetime |
| Admission.StepKeepsDrawn | internal/session/resolve.go:23-46 | no store operation brings in an address that was not drawn |
| Admission.RunKeepsDrawn | internal/session/resolve.go:23-46 | in every run every session holds an address drawn from a prefix enabled then |
| Admission.HandedOutWasDrawn | internal/session/resolve.go:23-46 | so does every address answered |
| Admission.NewSessionLasts | internal/session/resolve.go:34-45 | a new session holds the address drawn for it and ends exactly after its lifetime in minutes |
| Admission.SameSessionSameAddress | internal/session/resolve.go:34-45 | until the lifetime of a session is over, every request for its account and id gets the first request's address, whatever else runs in between except a deletion |
| Admission.AnswerIsCoveredIff | internal/session/resolve.go:34-45 | when the address answered lies in a prefix enabled now: always for a new session, for a live one iff its own prefix is still enabled or another enabled one holds it |
| Admission.SessionOutlivesPrefix | internal/session/resolve.go:34-45 | a session still answers with an address of a prefix that is no longer enabled |
| Admission.DrawnFromEntry | internal/ippool/pool.go:246-265 | what is drawn from the pool's list comes from an enabled entry |
| Admission.NoDrawFromSwitchedOff | internal/ippool/pool.go:288-297 | after a name is switched off no draw comes from it, unless it is listed again and enabled |
| Admission.Resolver.Resolve | internal/session/resolve.go:23-46 | rotate draws and writes nothing; sticky asks the store with the drawn candidate; fails without enabled prefixes |
| Admission.Runtime.Identify | internal/proxy/runtime.go:45-62 | parse, authenticate, defaults, header id, fall back to rotate |
| Admission.Runtime.Deliver | internal/proxy/runtime.go:68-72 | hands out a drawn address, writes the store only for a sticky request, fails only without usable prefixes |
| Admission.Runtime.Admit | internal/proxy/runtime.go:44-73 | bad credentials iff not authentic, and then limiter and sessions are untouched; limited iff metered and the calls so far fill the window; only an admitted sticky request writes a session; the lifetime is the name's or else the account's, within its limits; the address was drawn from a prefix enabled then |
| IPGen.MaskPrefix | internal/ipgen/ipgen.go:142-154 | clearing bits one by one subtracts the value modulo 2^(128-bits) |
| IPGen.Random | internal/ipgen/ipgen.go:57-84 | the value is the masked prefix plus the random bytes modulo 2^(128-bits); fails exactly for bits outside 0..128 |
| IPGen.DrawnKeepsPrefix | internal/ipgen/ipgen.go:57-84 | the prefix bits are kept, the host bits are the random ones |
| IPGen.ResidueCount | internal/ipgen/ipgen.go:57-84 | how many byte strings of a length leave a given remainder |
| IPGen.DrawIsUniform | internal/ipgen/ipgen.go:57-84 | each address of the prefix is hit by the same number 2^(8 hostBytes - h) of byte strings, each other by none |
| IPGen.RandInt | internal/ipgen/ipgen.go:156-173 | none for an empty set, else the eight bytes modulo n |
| IPGen.PrefixChoiceIsUniformIff | internal/ipgen/ipgen.go:86-100 | the choice is uniform iff the number of prefixes divides 2^64 |
| IPGen.ThreePrefixesAreNotUniform | internal/ipgen/ipgen.go:156-173 | with three prefixes the first is chosen by one byte string more than the second |
| IPGen.RandomFrom | internal/ipgen/ipgen.go:87-101 | the prefix is the one the eight bytes choose, the address the one the random bytes give inside it; fails exactly for no prefixes or a chosen one with bad bits |
| Pool.ActiveAddrsMembers | internal/ippool/pool.go:277-284 | the flat list holds exactly the addresses of enabled prefixes |
| Pool.ActiveInOrder | internal/ippool/pool.go:277-284 | and in order: each enabled prefix's addresses together, prefixes as configured |
| Pool.SwitchedAt | internal/ippool/pool.go:291-296 | only the first entry of that name is switched |
| Pool.StillEnabledIff | internal/ippool/pool.go:288-297 | after a name is switched off, an entry of that name is enabled iff it is listed again and enabled behind its first entry |
| Pool.SwitchKeepsActive | internal/ippool/pool.go:288-312 | an address not listed under the switched name stays active, even if prefixes repeat or share addresses |
| Pool.StillActive | internal/ippool/pool.go:288-312 | the sessions that survive a switch sit on active addresses |
| Pool.WindowIsDistinct | internal/ippool/pool.go:585-594 | any min(Count, addresses) consecutive round-robin picks take distinct slots |
| Pool.AddressesDifferIff | internal/ippool/pool.go:585-602 | these picks are distinct addresses, for every rule, iff the list names no address twice |
| Pool.NoRepeatsIff | internal/ippool/pool.go:277-284 | the list names no address twice iff no enabled prefix does and no two enabled entries share one |
| Pool.TwiceConfiguredRepeats | internal/ippool/pool.go:114-156 | a prefix given twice that has an address makes a list that repeats it, whatever else is given |
| Pool.RepeatedList | internal/ippool/pool.go:114-156 | the smallest such pool: one prefix twice, one address each |
| Pool.MadeNoRepeats | internal/ippool/pool.go:138-142 | a prefix's own numbered addresses do not repeat if numbering is one-to-one |
| Pool.NewPoolHolds | internal/ippool/pool.go:114-156 | a new pool holds for each prefix exactly the addresses numbered 1 to countPer that parse, in order, or the single one; of equal prefixes the last counts |
| Pool.PicksAre | internal/ippool/pool.go:585-594 | how often each slot is picked in n resolves from any counter |
| Pool.RoundRobinIsFair | internal/ippool/pool.go:585-594 | two slots of a rule are picked equally often, but for one |
| Pool.RunPicksInOrder | internal/ippool/pool.go:160-176 | over a run that leaves the rule and the list alone, the resolves of its domain take the slots in order, whatever else is called between them |
| Pool.RunIsFair | internal/ippool/pool.go:585-602 | so two slots are picked equally often over such a run, but for one |
| Pool.RunIsDistinct | internal/ippool/pool.go:585-602 | and resolves fewer apart than the rule has slots take different ones |
| Pool.ExpandGivesAll | internal/ippool/pool.go:683-701 | the counts grow by exactly the number asked, for every number that is not negative; of the negative ones, for those that divide evenly |
| Pool.GrowthKeeps | internal/ippool/pool.go:693-702 | growing takes no address away |
| Pool.SharesAreEven | internal/ippool/pool.go:683-692 | the shares differ by at most one, the first prefixes get the larger ones, single addresses none |
| Pool.GrowthGoesOn | internal/ippool/pool.go:693-702 | a prefix listed once that holds the addresses numbered 1 to its count does so afterwards |
| Pool.Pool.constructor | internal/ippool/pool.go:114-156 | one enabled entry for each spec, addresses 1 to countPer or the single one |
| Pool.Pool.RebuildAddrs | internal/ippool/pool.go:277-284 | the ordered concatenation of the enabled prefixes' addresses |
| Pool.Pool.EnabledPrefixes | internal/ippool/pool.go:246-265 | the enabled prefixes whose text parses, in order and as often as listed |
| Pool.Pool.SetPrefixEnabled | internal/ippool/pool.go:288-312 | switches the first entry; a session survives iff the prefix goes on or its address is not one of that prefix, and unchanged; every session stays on an active address |
| Pool.Pool.ResolveDomainRule | internal/ippool/pool.go:585-602 | an active address; round robin takes the slot of its counter and moves on by one |
| Pool.TouchedIsSound | internal/ippool/pool.go:550-581 | a hit keeps smallest latency at most largest, and hits per domain at most all hits |
| Pool.SessionShows | internal/ippool/pool.go:550-581 | after any hits: how many in all and of each domain, the last use, and the largest and smallest positive latency |
| Pool.Pool.RecordHit | internal/ippool/pool.go:535-582 | moves the session to the address and counts one hit; latencies, hits per domain and used addresses stay consistent |
| Pool.Pool.Resolve | internal/ippool/pool.go:160-228 | a rule decides; else a session used at most ttl ago, or any without a ttl, keeps its address and start; else the hash decides and a new one starts; one hit is counted, no other session changes |
| Pool.Pool.AddDomainRule | internal/ippool/pool.go:605-616 | no other rule changes; the new one's slots start inside the list, it can be resolved if its count is positive, and its first resolve takes the slot of the hash |
| Pool.Pool.RemoveDomainRule | internal/ippool/pool.go:619-623 | exactly that rule is gone |
| Pool.EndSessions | internal/ippool/pool.go:300-309 | deletes exactly the sessions of a kind |
| Pool.Pool.Cleanup | internal/ippool/pool.go:481-497 | deletes exactly the sessions unused for longer than the ttl |
| Pool.Pool.ClearSessions | internal/ippool/pool.go:469-473 | no session is left |
| Pool.Pool.RemoveSession | internal/ippool/pool.go:475-479 | exactly that session is gone |
| Pool.Grow | internal/ippool/pool.go:686-702 | each expandable prefix gets its share, numbered on from its count |
| Pool.Pool.Expand | internal/ippool/pool.go:670-704 | grows by shares, sessions stay on active addresses; nothing if no prefix can grow |
| Socks5.HelloReadsGreeting | internal/proxy/socks5.go:120-147 | a greeting is accepted iff it offers method 2, and exactly its bytes are read |
| Socks5.HelloIsGreeting | internal/proxy/socks5.go:120-147 | nothing but a greeting is accepted |
| Socks5.LoginReadsMessage | internal/proxy/socks5.go:150-170 | every user name and password up to 255 bytes is read back, whatever the version byte |
| Socks5.LoginIsMessage | internal/proxy/socks5.go:150-170 | nothing but the encoding of a login is accepted |
| Socks5.TargetReadsAddress | internal/proxy/socks5.go:269-304 | every address and port is read back, and nothing after it |
| Socks5.TargetIsAddress | internal/proxy/socks5.go:269-304 | nothing but the encoding of an address is accepted |
| Socks5.RequestReadsMessage | internal/proxy/socks5.go:187-208 | a connect request leads to its target, any other command is refused |
| Socks5.RequestIsMessage | internal/proxy/socks5.go:187-208 | only the encoding of a connect request leads to a connection attempt |
| Socks5.WholeConversation | internal/proxy/socks5.go:120-208 | greeting, login and request sent at once are all understood, and the payload is left untouched |
| Socks5.ReplyReadsBack | internal/proxy/socks5.go:306-326 | a reply, read with the address reader, gives the address that was bound |
| Socks5.WireExamples | internal/proxy/socks5.go:120-305 | the bytes of greeting, login and request on examples of each address type |
| Socks5.BoundIs | internal/proxy/socks5.go:306-326 | exactly a mapped IPv4 address goes out as IPv4; none goes out as zeros |
| Socks5.AnswerCode | internal/proxy/socks5.go:187-262 | the code answered: 0 iff the dial succeeded, 1 if it failed, 7 for another command, 8 for an unreadable address; no answer to a foreign or short header |
| Socks5.AnswerTells | internal/proxy/socks5.go:187-262 | a request counts as failed iff its code is not 0; the answer to a successful one reads back as the local end |
| Socks5.AsStringInjective | internal/proxy/socks5.go:173-173 | a string is the bytes received, so distinct bytes are distinct credentials |
| Socks5.Conn.ReadFull | internal/proxy/socks5.go:121-124 | all bytes wanted, or an error |
| Socks5.SendReply | internal/proxy/socks5.go:306-326 | writes the reply of RFC 1928; a mapped IPv4 address goes out as IPv4, none as zeros |
| Socks5.ReadAddress | internal/proxy/socks5.go:269-304 | reads an address and stops right after it |
| Socks5.ReadHello | internal/proxy/socks5.go:120-147 | reads a greeting, answers with method 2 or none |
| Socks5.ReadLogin | internal/proxy/socks5.go:150-170 | reads a login and stops right after it |
| Socks5.Server.CheckLogin | internal/proxy/socks5.go:172-181 | success is answered iff an address is handed out; a failure is recorded iff the credentials are bad, not for a used-up rate |
| Socks5.Server.Authenticate | internal/proxy/socks5.go:150-182 | reads exactly the login; success is answered iff admitted, for user names of any bytes |
| Socks5.Server.Negotiate | internal/proxy/socks5.go:120-148 | an address iff the client offers passwords and is admitted, and then it was told so; what follows the login is left to read |
| Socks5.Server.HandleRequest | internal/proxy/socks5.go:187-266 | dials exactly for a well-formed connect request, answers code 0 exactly if that succeeds, leaves the rest for the relay, counts each refusal |
| Socks5.Server.Serve | internal/proxy/socks5.go:100-116 | a client without an address counts as one failure; else its request is dialled and answered, and all bytes sent are stated |
| Socks5.Server.HandleConn | internal/proxy/socks5.go:93-116 | a client whose ban is in force is not even read; any other is served |

## Left out

- Store.Store.DeleteSticky: the two Redis commands are one step here, so interleavings of commands of different callers are not covered; the same holds for the other store methods except the script, which Redis runs atomically.
- Store.Store.CreateAccount: the hash is given instead of computed by bcrypt.
- Store.Store.GetOrCreateSticky: lifetimes and clocks are whole seconds, and one clock serves Redis and the program; Redis transport errors are not modelled.
- IPBan.IPBan.RecordFailure: the address is given without its port; splitting `host:port` is not part of the model.
- Opener.OpenCall.DialWithColdRetry: whether an error is worth a retry is an oracle; the list of error kinds in `isRetryableDialError` is not modelled, nor is the neighbour announcement before a warmup.
- Pool.Pool.ResolveDomainRule: the counter is unbounded; the source converts it to a signed integer, which goes negative after 2^63 resolves. A count of zero for round robin and a non-positive one for the random strategy make the source panic, and so does an empty address list: these are preconditions.
- Pool.Pool.Resolve: average latencies are not kept.
- Pool.Pool.constructor: splitting the prefix text and making addresses from text are parameters; a prefix length above 128 makes the source panic and is excluded.
- Pool.MadeNoRepeats: which prefixes number their addresses one-to-one, or share some, depends on address text.
- Pool.GrowthKeeps: a prefix without a list gets an empty one where the source leaves it out; both read as no addresses.
- Socks5.Server.CheckLogin: the 5 s deadline of the request is not modelled.
- Socks5.Server.HandleRequest: the target is kept as bytes, its text form and name resolution are not modelled; traffic log, deadlines and the counters of IPv6 and IPv4 connections are left out. So is the refusal of an exit address whose text does not parse, since addresses are values here.
- Address text (`net.ParseIP`, `String`) is taken to be one-to-one; `ParsePrefix` and `inferBits` are not modelled.
- A nil exit address in the interleaving model: every such caller leads alone, as `WarmCache.NdpWarmCache.BeginConfirm` states.
- `strings.ToLower` beyond ASCII: its result has the right ASCII characters, also for the two letters that lower to ASCII, and only those are ever looked at.
- HTTP proxying, relays, the admin API and its sessions, the traffic log, the port manager, route setup and raw ICMPv6 are plumbing around this logic.
- `RecordLatency`, `Lookup`, `ListAccounts`, `UpdateAccount` and the other readers and setters would only add easy members.

# Abuse-control state of security-go, verified

security-go decides over time: it counts failures, locks identities out, remembers nonces, bans addresses and binds sessions, all through entries that expire. This project models that state and proves what it adds up to over whole runs, with the background reapers sweeping at any moment. It covers the brute-force guard and lockout, the replay-proof signer, the two storage backends and the address blacklist, session binding, the TTL store underneath, and the streaming JSON depth check.

`dafny verify dfyconfig.toml` verifies the whole project (Dafny 4.11).

## How the model is built

- Instants and durations are integers in nanoseconds. A public call reads the clock once; the reading is an argument. `GuardLogin` reads it twice, before and after the handler, and the signer's `Verify` twice, for the freshness check and for counting the nonce. In `Concurrency` every store operation has its own reading and the readings need not be ordered.
- Objects that the library updates in place are classes: `SessionStore.MemoryStore` (byte buffers), `MemoryBackend.Memory`, `FileBackend.File`, `IpBlacklist.Blacklist`, `TrackerClass.Tracker`, `Handler.StatusWriter`, `SignerClass.Signer`, `NestedDepthClass.NestedDepth`. Each method is proved to move the abstract state exactly as a function says (`TtlMap`, `TrackerSpec`, `MemoryBackend.Mem`, `FileRecords`, `SignerModel`, `NestedDepthModel`), and the theorems are about those functions.
- A run is any sequence of operations; its state is a fold. Every main theorem compares that state with a reading of the history that knows nothing of entries and expiry: `Streak`, `Lockouts.Deadline`, `Epochs`, `LatestIssue`, `LastWrite`, `Fold`, `BanRunning`, or the tree of a JSON document.
- Store keys are a datatype; `TrackerModel.KeysNeverCollide` proves that the rendered strings are as distinct. The identity hash is a free constructor, HMAC-SHA256 an arbitrary function of the message, `net.ParseIP` and the country lookup arbitrary functions of the text. Counters are kept as decimal text and go through printing and parsing; lists, sessions and deadlines are typed values. A deadline keeps whole seconds only.
- Text is a sequence of bytes, one per character. A handler is the sequence of its writes; `Handler.Recorded` is the status the guard keeps, `Handler.Answered` the one the client is sent. A JSON input is the tokens before its first error.

## What the code does where its documentation says otherwise

- `session/bruteforce.go:24-27` and `session/tracker.go:82-87` promise a lockout for Failures failures inside FailureWindow. They do lock (`LoginHistory.FailuresInsideWindowLock`), but the counter's life is renewed by every failure, so a chain of failures each no more than FailureWindow after the one before locks as well, whatever it spans in total: `LoginHistory.SlowFailuresLock` is a run that locks with no more than two failures in any window that ends at the crossing or later. A crossing is one that the documentation promises exactly if the first of its latest Failures failures lies in the window (`LoginHistory.CrossingIsDocumentedIff`).
- `session/bruteforce.go:71-75` and `session/tracker.go:98-101` promise a refusal for StuffingLimit distinct identities inside FailureWindow. The list lives one FailureWindow after its latest insertion, and an identity it already holds does not renew it. So it errs both ways. A real sweep can pass (`StuffingWindow.SweepCanPass`): the list misses an identity of the window exactly if that identity failed only before the live list was opened (`StuffingWindow.NoSweepIsMissedIff`), and such a failure was always a repeat (`StuffingWindow.MissedSweepIsOldRepeat`). A slow client can be refused (`StuffingWindow.StaleSweepCanBeDenied`): the list counts an identity too many exactly if it has not failed again within the window (`StuffingWindow.NoSweepIsStaleIff`).
- `session/bruteforce.go:28-31` and `session/tracker.go:94-97` promise that a client that goes on after a lockout escalates instead of starting over. The strikes live one BackoffWindow from the crossing, not from the end of its lock, so the next crossing escalates exactly if it comes within BackoffWindow of the last (`Escalation.NextCrossingEscalates`). A crossing at the very end of a lock does so for every start if and only if the nominal duration is at most BackoffWindow, and for some start if and only if it is less than a second longer (`Escalation.EndOfLockIsInBackoffIff`). With the defaults of `session/tracker.go:35-36`, where MaxLockout and BackoffWindow are both 24 hours, strikes at the cap end with the lock: only a crossing in the sub-second gap that rounding leaves, or at that very instant, still counts as the next strike, and any later one starts over at the base lockout.
- The guess rate is bounded by Failures per FailureWindow exactly when both Lockout and MaxLockout last FailureWindow plus one second (`GuessRate.RateIsBoundedIff`); the second is what writing the deadline in whole seconds can take off. A lockout shorter than a second can be lost entirely (`LoginHistory.ShortLockoutIsLost`).
- `session/bruteforce.go:95-97` says that a 401 counts and any 2xx clears, so the handler only has to be honest about its status. The guard records the first code written, which is what the client is answered exactly if the handler writes something and no informational header first (`Handler.RecordedIsAnsweredIff`). A handler that writes nothing answers 200 and clears nothing; one that sends a 103 ahead of each 401 allows any number of guesses (`GuessRate.HintedGuessesAreUnbounded`), so the guess bound is about handlers that do neither.
- `session/bruteforce.go:164-165` doubles the lockout for every further crossing up to MaxLockout. The halved comparison turns a double that is one nanosecond short of an odd MaxLockout into MaxLockout, and does nothing else (`LockDuration.NextLockoutIsMinIff`).
- `session/tracker.go:38-39` widens SubnetBits by 24 for IPv6. The sum is a machine integer: for the last 24 values of SubnetBits it wraps around, and all of IPv6 counts as one place instead of every address alone (`TrackerModel.SamePlace`).
- `session/tamper.go:39-41` promises that a captured signature cannot be replayed. The clock is read at `session/tamper.go:90` and again at `storage/memory.go:43`. If the second reading may come up to `delay` later, a nonce window suffices if and only if it is at least 2·MaxSkew plus that delay (`SignerRuns.WindowSufficesIff`). The window of the code is 2·MaxSkew, so the promise holds exactly if that fits in 64 bits and no time passes between the readings (`SignerRuns.ReplayProofIff`).
- `httpval/ip_blacklist.go:53-54` speaks of a threshold reached within the window. Windows are fixed, not sliding: 2·Threshold−2 attacks within one window length always ban (a single one does for a threshold of one), one fewer need not (`BanTrigger.BurstFires`, `BanTrigger.SharpRun`).
- `storage/file.go:53-57` replaces a record when its window is over, and its ban with it. File and Memory disagree about a ban exactly while it runs and an increment has opened a new window since (`BackendRuns.FileForgetsBanIff`).
- The sweeps of `storage/memory.go:104-114` and `storage/file.go:110-121` show in the answers of a run exactly if some increment asks for a window that reaches back to a counter they dropped (`BackendRuns.MemoryAnswersHistoryIff`, `BackendRuns.FileAnswersHistoryIff`); windows that grow do so (`BackendRuns.GrowingWindowShows`), and because a ban keeps File's counter alive the two backends can then answer differently (`BackendRuns.BanKeepsCounter`). Windows that are positive and never grow are safe (`BackendRuns.SettledRefinesHistory`).
- `httpval/nested_depth.go:15-17` and `httpval/nested_depth.go:36-38` say that malformed input is never flagged. It is flagged exactly when the tokens before its first error nest deeper than MaxDepth somewhere or hold more than a positive MaxKeys elements (`NestedDepthModel.ReportedIff`).

## Model

| member | source | states |
|---|---|---|
| GuessRate.RateIsBoundedIff | session/bruteforce.go:98-125 | over all sequential runs with honest handlers, at most Failures handler runs that answer 401 for one identity fall into any FailureWindow without a success, if and only if Lockout and MaxLockout are at least FailureWindow plus one second |
| GuessRate.GuessRateBound | session/bruteforce.go:46-68 | the bound for one run and one interval, with other identities, other operations and sweeps interleaved |
| GuessRate.ShorterLockoutBreaksTheBound | session/bruteforce.go:57 | for every shorter lockout a run exists with one guess more than Failures |
| GuessRate.HintedGuessesAreUnbounded | session/bruteforce.go:116-122 | under every configuration, a handler that sends an informational header ahead of its 401 allows any number of guesses in one instant and leaves the store empty |
| GuessRate.GuessesAreSpent | session/bruteforce.go:40-68 | after m guesses the counter stands at m until the interval ends, and the Failures-th guess locks beyond it |
| LoginHistory.LockIsLastCrossing | session/lockout.go:46-64 | at every instant of every run an identity is locked exactly until the deadline its latest threshold crossing set |
| LoginHistory.DeadlineNeverMoves | session/bruteforce.go:46-61 | until that deadline no continuation of the run moves it or ends the lockout |
| LoginHistory.EpisodeLength | session/bruteforce.go:56-58 | the k-th crossing of a streak keeps its identity locked, through every continuation of the run, for the k-th nominal duration less the part of a second that rounding takes, and no longer unless it crosses again |
| Escalation.NextCrossingEscalates | session/bruteforce.go:28-31 | the next crossing without a clear comes at the deadline of the last or after it; it is the next strike, of a nominal duration at least as long, if it comes within BackoffWindow of the last crossing, and the first strike otherwise |
| Escalation.LongLocksStartOver | session/tracker.go:94-97 | after a lockout of nominally BackoffWindow plus a second or more the next crossing is always the first strike again |
| Escalation.EndOfLockIsInBackoffIff | session/bruteforce.go:56-58 | the end of a lock lies within BackoffWindow of its crossing for every start if and only if the nominal duration is at most BackoffWindow, and for some start if and only if it is less than a second longer |
| Escalation.CanEscalateIff | session/tracker.go:94-97 | some run escalates if and only if the shorter of Lockout and MaxLockout is below BackoffWindow plus one second |
| Lockouts.RunFollowsFold | session/bruteforce.go:32-69 | in every run the crossings and the latest deadline of an identity equal a fold over the instants of its failures and clears that knows no store, entry or expiry |
| Lockouts.LockFollowsFailures | session/lockout.go:46-64 | at every instant of every run an identity is locked exactly until the deadline that this fold gives |
| LoginHistory.FailureCountIsStreak | session/bruteforce.go:36-44 | the stored decimal counter equals the failures since the last clear in the current chain of gaps up to FailureWindow |
| LoginHistory.StrikesAreCrossings | session/bruteforce.go:147-162 | the stored strikes equal the crossings since the last clear in the current chain of gaps up to BackoffWindow |
| LoginHistory.FailureLocksIff | session/bruteforce.go:46-61 | a failure leaves its identity locked if and only if it was locked or the chain reaches Failures and the lockout reaches the next whole second |
| LoginHistory.FailureLocksAtThreshold | session/bruteforce.go:50 | for lockouts of a second or more the rounding drops out of that condition |
| LoginHistory.FailuresInsideWindowLock | session/bruteforce.go:24-27 | Failures failures inside a true sliding FailureWindow always lock |
| LoginHistory.SlowFailuresLock | session/bruteforce.go:68 | a run of Failures failures one FailureWindow apart ends locked although no FailureWindow that ends then or later holds more than two of them |
| LoginHistory.CrossingIsDocumentedIff | session/bruteforce.go:24-27 | a failure that crosses has Failures failures inside the sliding FailureWindow if and only if the first of its latest Failures lies in the window |
| LoginHistory.ShortLockoutIsLost | session/bruteforce.go:57 | with a lockout of one nanosecond a crossing locks nobody |
| LoginHistory.OthersAreUnaffected | session/lockout.go:42-44 | counters, strikes and lock of every other identity stay as they were |
| Streaks.StreakIsWindowIff | session/tracker.go:82-87 | the chain count equals the sliding-window count if and only if the first failure of the chain lies in the window |
| Streaks.WindowHoldsIff | session/tracker.go:82-87 | for every n up to the chain count the sliding window holds n failures if and only if the n-th latest lies in it |
| Streaks.WindowIsInStreak | session/tracker.go:82-87 | the chain count is never below the sliding-window count |
| Streaks.SlowHitsFormStreak | session/bruteforce.go:68 | n failures one window apart count n although no window that ends at the latest or later holds more than two of them, and none that ends later more than one |
| LockDuration.LockFor | session/bruteforce.go:164-179 | the loop computes Lockout times a power of two under its cap, the plain minimum at the first crossing, rounding up only from one below the cap after it, and never leaves 64 bits |
| LockDuration.FirstLockout | session/bruteforce.go:167-178 | up to the first crossing the duration is the smaller of Lockout and MaxLockout |
| LockDuration.NextLockout | session/bruteforce.go:169-174 | each further crossing doubles the duration before it, and a double that reaches the cap or is one short of it becomes the cap |
| LockDuration.NextLockoutIsMinIff | session/bruteforce.go:164-165 | that is the smaller of the cap and the double if and only if the cap is even or the double is not one short of it |
| Escalation.LockoutsDouble | session/bruteforce.go:28-31 | the same recurrence for the durations a Tracker locks for |
| Escalation.DefaultLockouts | session/tracker.go:104-107 | by default they are 15 and 30 minutes, 1, 2, 4, 8 and 16 hours, and 24 hours from then on |
| LockDuration.LockoutIsMonotone | session/bruteforce.go:164-165 | more strikes never shorten the lockout |
| LockDuration.LockoutUnderEvenCap | session/bruteforce.go:164-165 | for an even cap the result is the plain minimum of the cap and Lockout times the power of two |
| LockDuration.LockoutBounds | session/bruteforce.go:164-165 | the result lies between the smaller of Lockout and MaxLockout and MaxLockout |
| Concurrency.NoFalseLockout | session/bruteforce.go:32-69 | with calls interleaved at single store operations the count never exceeds the calls made, so a lock means at least Failures calls |
| Concurrency.AloneIsSequential | session/bruteforce.go:32-69 | the single steps of a call that runs alone add up to the sequential operation |
| Concurrency.UpdatesCanBeLost | session/bruteforce.go:36-44 | two interleaved calls can leave a count of one |
| TrackerRuns.RunIsWellTyped | session/bruteforce.go:58 | in every run each key holds its own kind of value and never an empty name, counters are positive and a lock entry outlives the deadline inside it |
| TrackerRuns.FailuresAreRecorded | session/bruteforce.go:32-35 | in a run recording a failure errs exactly for the empty identity |
| TrackerRuns.LoginOutcomes | session/bruteforce.go:104-123 | a recorded 2xx forgets failures and strikes but not the lock, a recorded 401 records a failure, everything else and a request that names nobody change nothing |
| TrackerRuns.WrongKindFollowsPolicy | session/tracker.go:280-285 | a stored session or list of the wrong kind is answered by FailClosed alone and changes nothing |
| TrackerRuns.MalformedValuesAreHarmless | session/bruteforce.go:63-67 | text that is no number counts zero, what is no deadline locks nobody, and with a malformed list nobody is turned away for stuffing and recording a failure errs without counting |
| TrackerRuns.AnsweredOutcomes | session/bruteforce.go:94-97 | of a handler that writes something and no informational header first, an answered 401 records a failure and an answered 2xx clears; a handler that writes nothing answers 200 and changes nothing |
| TrackerClass.Tracker.RecordFailure | session/bruteforce.go:32-69 | the method leaves exactly the specified store and error |
| TrackerClass.Tracker.CheckLogin | session/bruteforce.go:76-88 | the method answers exactly the specified verdict |
| TrackerClass.Tracker.GuardLogin | session/bruteforce.go:98-125 | the handler runs if and only if the check passes, its recorded status decides the bookkeeping, a wait is advised if and only if the lock of a named identity has a second or more to run, and it ends less than a second before the lock |
| TrackerClass.Tracker.ClearFailures | session/lockout.go:32-39 | counter and strikes go, the lock stays, the empty identity is an error |
| TrackerClass.Tracker.IsLocked | session/lockout.go:18-27 | the running deadline, and none for the empty identity |
| TrackerClass.Tracker.Locked | session/lockout.go:48-64 | the deadline of an unexpired, well-formed entry that is still ahead |
| TrackerClass.Tracker.Bump | session/bruteforce.go:147-162 | the counter is one more than it read and is saved as decimal text |
| Handler.StatusWriter.Do | session/bruteforce.go:127-145 | the recorded status is the first code the handler writes, 200 for a body that comes first |
| Handler.RecordedIsAnsweredIff | session/bruteforce.go:133-145 | the recorded status is the one the client is answered if and only if the handler writes something and no informational header first |
| Handler.SilenceAndHints | session/bruteforce.go:116-122 | the two ways it is not: a silent handler answers 200 and records nothing, and a 103 hides the 401 behind it |
| Handler.FirstStatusStands | session/bruteforce.go:133-145 | no later write changes a recorded status |
| ListHistory.StuffingCountIsDistinctFailures | session/bruteforce.go:181-216 | the stuffing count is the number of distinct identities failed in the live epoch, up to StuffingLimit, and the list has no duplicates |
| ListHistory.StuffingDeniedIff | session/bruteforce.go:84-86 | an unlocked identity is refused if and only if that number reached StuffingLimit |
| StuffingWindow.DeniedIffEpochIsFull | session/bruteforce.go:84-86 | an unlocked identity is refused if and only if StuffingLimit distinct identities failed from the client since the live list was opened |
| StuffingWindow.LoginFollowsHistory | session/bruteforce.go:76-88 | every answer of CheckLogin in every run, with its reason, follows from the failures and clears of the identity and the failures from the client |
| StuffingWindow.NoSweepIsMissedIff | session/bruteforce.go:181-216 | those identities include every one that failed inside the sliding FailureWindow if and only if no failure older than the opening lies in the window with an identity that has not failed since |
| StuffingWindow.MissedSweepIsOldRepeat | session/bruteforce.go:181-216 | whenever StuffingLimit identities of the window pass, one of them was dropped with an earlier list, and its failure inside the window was a repeat that renewed nothing |
| StuffingWindow.NoSweepIsStaleIff | session/bruteforce.go:181-216 | those identities are all of the sliding window if and only if each of them failed within it |
| StuffingWindow.StaleSweepHasOldIdentity | session/bruteforce.go:181-216 | a client refused for fewer than StuffingLimit identities of the window has one in its list that has not failed within it |
| StuffingWindow.DocumentedWhenSetsAgree | session/tracker.go:98-101 | when neither happens the answer is the documented one |
| StuffingWindow.SweepCanPass | session/bruteforce.go:71-75 | with a limit of two, two identities fail within a nanosecond and the client passes |
| StuffingWindow.StaleSweepCanBeDenied | session/bruteforce.go:71-75 | with a limit of two, a client is refused for one identity of the window |
| EpochWindows.LostIsRepeated | session/bruteforce.go:195-216 | whatever was inserted before the live list was opened is out of the window |
| EpochWindows.CountIsLive | session/bruteforce.go:195-205 | the elements presented since the opening are those the epoch has |
| ListHistory.ObserveAlertsIff | session/tracker.go:215-248 | Observe alerts if and only if the baseline is live and the network is not among the last KnownNets insertions, by position |
| ListHistory.LatestNetworkPasses | session/tracker.go:223-236 | in every run the network a user was last seen in never alerts |
| ListHistory.InsertedIsKnownIff | session/tracker.go:233-236 | within a live baseline a network stays known if and only if fewer than KnownNets insertions came after its own |
| CappedList.CountIsDistinctUpToCap | session/bruteforce.go:195-205 | the length of a capped list is the number of distinct elements of its epoch, up to the cap |
| CappedList.EpochsExplain | session/tracker.go:225-236 | a capped list never holds an element twice, and below the cap it forgets nothing |
| CappedList.LastNIsTail | session/bruteforce.go:201-204 | what a capped list keeps is the end of what was inserted, all of it while there is room |
| CappedList.Contains | session/tracker.go:226-230 | the search finds exactly the members |
| SessionHistory.CheckFollowsHistory | session/tracker.go:175-197 | every answer of Check, with its reason, follows from the latest Issue not revoked since, the latest renewal and the lock |
| SessionHistory.AcceptedIff | session/tracker.go:250-278 | a request is accepted if and only if the token was issued and not revoked, is not locked, was renewed within the TTL, and the request matches the issuing client and network |
| SessionHistory.OnlyAcceptedRequestsRenew | session/tracker.go:273-277 | an operation that is not an accepted request, an Issue or a Revoke of the token leaves its stored session, binding and expiry, as it was, until a sweep after the deadline |
| SessionHistory.SessionTracked | session/tracker.go:147-169 | the stored entry is exactly the client, the country and the instant of the latest Issue and the instant of the latest renewal, expiring one TTL after that |
| TrackerClass.Tracker.Check | session/tracker.go:175-197 | the method answers and renews exactly as specified |
| TrackerClass.Tracker.Verify | session/tracker.go:250-278 | it saves the renewed session if and only if it passes |
| TrackerClass.Tracker.Issue | session/tracker.go:147-163 | the binding of the client is saved for one TTL; the empty token is an error |
| TrackerClass.Tracker.Revoke | session/tracker.go:167-169 | the session is gone |
| TrackerClass.Tracker.Observe | session/tracker.go:215-248 | the method answers and remembers exactly as specified, and the network is known afterwards |
| TrackerModel.SamePlace | session/tracker.go:397-418 | two addresses are one place if and only if they are both IPv4 and agree after division by 2^(32-n), both IPv6 and agree after division by 2^(104-n), or are the same unparsed text; with n past that they must be equal, save for the wrap-around at the end of the integers |
| TrackerModel.DefaultPlace | session/tracker.go:22-39 | by default the leading 24 bits of IPv4 and 48 bits of IPv6 decide |
| TrackerModel.SettingsAndDefaults | session/tracker.go:18-37 | every setting counts if positive and has its own default in nanoseconds or units otherwise |
| TrackerModel.KeysNeverCollide | session/tracker.go:43-48 | rendered store keys are distinct across the six prefixes and within each |
| TtlHistory.LoadReadsLastWrite | session/store.go:66-77 | in every run a load returns the latest write to the key while its time to live lasts, and nothing otherwise |
| TtlHistory.SweepsAreInvisible | session/store.go:101-107 | leaving out every sweep changes no load |
| SessionStore.MemoryStore.Save | session/store.go:56-64 | a private copy is stored; the map of byte strings changes at the key only |
| SessionStore.MemoryStore.Load | session/store.go:66-77 | a fresh copy of the live value, or nothing |
| SessionStore.MemoryStore.Delete | session/store.go:79-85 | the key is gone |
| SessionStore.MemoryStore.Sweep | session/store.go:101-107 | the keys that stay are exactly those that have not expired, with their values |
| SessionStore.SavedBufferIsDetached | session/store.go:58-59 | writing to a buffer after passing it to Save changes nothing stored |
| SessionStore.LoadedBufferIsDetached | session/store.go:74-76 | writing to a loaded buffer changes no later load |
| Decimal.ParseOfItoa | session/bruteforce.go:155-158 | printing an integer and parsing it back is the identity |
| Decimal.ParseIff | session/tamper.go:83-88 | text parses to n if and only if it is an optional sign and digits that spell n in base ten |
| Decimal.ItoaIsShortest | session/bruteforce.go:155-158 | the printed text denotes the integer without a plus sign or a leading zero |
| SignerRuns.ReplayProofIff | session/tamper.go:103-108 | no run whose nonces are counted within a delay of the freshness check accepts a signature string twice, if and only if 2·MaxSkew does not overflow 64 bits and the delay is zero |
| SignerRuns.WindowSufficesIff | session/tamper.go:89-108 | a nonce window is long enough for that if and only if it is at least 2·MaxSkew plus the delay |
| SignerRuns.AcceptedAtMostOnce | session/tamper.go:89-108 | any nonce window of at least 2·MaxSkew plus the largest delay between the two clock readings suffices, under arbitrary presentations, sweeps and foreign traffic |
| SignerRuns.ShorterWindowAcceptsTwice | session/tamper.go:104 | any shorter window accepts some signature at both ends of its fresh interval |
| SignerRuns.HonestIsAcceptedIff | session/tamper.go:72-110 | after any run in which its nonce was never genuinely presented, an honest signature is accepted if and only if it is within MaxSkew of its signing second |
| SignerRuns.DifferentDrawsAreAccepted | session/tamper.go:57-68 | honest signatures with pairwise different random bytes are each accepted at their first presentation, in any run and among any forgeries, if and only if they are fresh |
| SignerRuns.PresentationAcceptedIff | session/tamper.go:70-110 | any text presented in any run is accepted if and only if the signer has a secret, the text is a 64-bit timestamp within MaxSkew, a nonce and the MAC over both and the parameters, and the nonce was not accepted within the nonce window |
| SignerRuns.UnconfiguredAcceptsNothing | session/tamper.go:73-76 | in every run a signer without a secret accepts nothing and leaves the backend to the other traffic |
| SignerModel.GenuineIff | session/tamper.go:72-101 | the checks before the nonce pass if and only if there is a secret and the text is such a timestamp, nonce and MAC |
| SignerModel.PartsDecide | session/tamper.go:83-101 | for three parts of any text the reason is that of the first check that fails |
| SignerModel.MalformedIff | session/tamper.go:77-80 | a text is malformed if and only if it is not three parts with two dots between them |
| SignerModel.OnlyGenuineCounts | session/tamper.go:97-108 | whatever fails before the replay check leaves the nonces unchanged |
| SignerModel.SignedIsGenuineIff | session/tamper.go:57-101 | what Sign returns passes every check before the nonce exactly while it is fresh, and is otherwise expired or from the future |
| SignerModel.TamperingIsDetectedIff | session/tamper.go:112-122 | other parameters sign another message and are a mismatch that burns no nonce, short of a MAC collision |
| SignerModel.MessageIsInjective | session/tamper.go:112-122 | the signed message determines parameters, timestamp and nonce |
| SignerModel.SignatureSplits | session/tamper.go:67-81 | a signature splits into exactly its three parts |
| SignerClass.Signer.Verify | session/tamper.go:72-110 | the method answers, with its reason, and counts exactly as specified, with and without a nonce store; without a secret it refuses and counts nothing |
| SignerClass.Signer.Sign | session/tamper.go:57-68 | the floored second, two hexadecimal digits for every random byte and the MAC of both and the parameters, or an error without a secret |
| SignerClass.Signer.Mac | session/tamper.go:114-122 | the MAC does not depend on the iteration order of the parameters |
| QueryEncoding.Canonical | session/tamper.go:133-139 | whatever the iteration order, the loop yields the encoding of the sorted listing |
| QueryEncoding.CanonicalIsUnique | session/tamper.go:131-132 | a parameter map has one canonical text |
| QueryEncoding.CanonicalIsInjective | session/tamper.go:133-139 | a canonical text has one parameter map |
| QueryEncoding.CanonicalHasNoNewline | session/tamper.go:116-119 | the canonical text never contains the separator of the message |
| QueryEncoding.EscapeRoundTrip | session/tamper.go:131-138 | unescaping undoes escaping for every byte string |
| QueryEncoding.EscapedByte | session/tamper.go:131-138 | letters, digits and the four unreserved marks stay, a space becomes a plus sign, every other byte its two-digit code |
| QueryEncoding.EncodeConcat | session/tamper.go:133-139 | a pair is key, equals sign and value, and pairs are joined by ampersands |
| QueryEncoding.LessIff | session/tamper.go:131-132 | the order of the keys is that of their bytes, a proper prefix first |
| Text.RawUrlIsInjective | session/tamper.go:121 | different MAC bytes have different base64url text |
| Text.RawUrlSpellsBytes | session/tamper.go:121 | the text spells the number of the bytes, filled up to whole groups, in the base64url alphabet and in as few characters as hold it |
| Text.HexDigits | session/tamper.go:66-67 | two lower-case hexadecimal digits for every byte, the high one first |
| Text.HexIsInjective | session/tamper.go:66-67 | different random bytes give different nonces |
| Text.SplitsInThreeIff | session/tamper.go:77-81 | a text splits into three given parts if and only if it is those parts with two dots between them |
| BackendRuns.MemoryAnswersHistoryIff | storage/memory.go:40-52 | every increment of a run of Memory is answered the count of the full history, however often it was reaped, if and only if none asked for a window that reaches back to a dropped counter |
| BackendRuns.MemoryRefinesHistory | storage/memory.go:40-67 | after such a run the next increment is answered that count if and only if the counter was not dropped or the increment opens a window anyway, and a reading is that of the history, or zero once dropped |
| BackendRuns.MemoryBlocksIff | storage/memory.go:69-83 | in every run a key is blocked exactly until the end of its latest ban |
| BackendRuns.FileAnswersHistoryIff | storage/file.go:48-62 | the same of every increment of File under pruning, saving and reopening |
| BackendRuns.FileRefinesHistory | storage/file.go:48-77 | the same of the next increment and reading of File |
| BackendRuns.FileBlocksIff | storage/file.go:91-98 | in every run File blocks a key exactly until the end of its latest ban or until an increment opens a new window |
| BackendRuns.FileAgreesWithMemoryIff | storage/file.go:48-77 | after such a run the two backends differ on the next count or reading if and only if one of them dropped the counter, the other kept it, and it still matters |
| BackendRuns.BanKeepsCounter | storage/file.go:110-121 | a ban keeps File's counter where Memory drops its own, and an increment with a longer window is answered differently |
| BackendRuns.GrowingWindowShows | storage/memory.go:104-114 | on both backends one sweep changes the answer to an increment with a longer window |
| BackendRuns.SettledRefinesHistory | storage/memory.go:40-67 | for a key whose windows are positive and never grow both backends answer every increment and reading as the history does |
| BackendRuns.FileForgetsBanIff | storage/file.go:53-57 | in every run they differ on a ban if and only if it runs and an increment has opened a new window since |
| BackendRuns.NewWindowDropsBan | storage/file.go:53-57 | one increment after a block suffices for that |
| BackendRuns.HousekeepingShowsIff | storage/file.go:110-121 | in a run where housekeeping has not shown yet, leaving it out changes the next answer if and only if the counter was dropped and still matters |
| BackendRuns.SweepsKeepBans | storage/memory.go:107-120 | in every run leaving out the reaper changes no ban answer of Memory |
| BackendRuns.HousekeepingIsInvisible | storage/file.go:110-121 | for a key whose windows are positive and never grow, leaving out all reaping, pruning, saving and reopening changes no answer of either backend |
| Windows.DroppingShowsIff | storage/memory.go:104-114 | for one finished counter and any next increment, the exact case in which having dropped it shows |
| Windows.FoldFromOpening | storage/memory.go:40-52 | after any increments the counter is how many there were since the one that opened the running window, when that was, and the window asked for last |
| Windows.ReadingFromOpening | storage/memory.go:54-67 | a reader is told that count, or zero once the window asked for last is over |
| MemoryBackend.Memory.Incr | storage/memory.go:40-52 | opens a window or counts in the running one, in place |
| MemoryBackend.Memory.Get | storage/memory.go:54-67 | the count, or zero once its recorded window is over |
| MemoryBackend.Memory.Block | storage/memory.go:69-74 | the ban runs until now plus the duration; counters stay |
| MemoryBackend.Memory.IsBlocked | storage/memory.go:76-83 | true exactly before the end of the ban |
| MemoryBackend.Memory.ReapOnce | storage/memory.go:107-120 | the counters whose window is not over and the bans that have not ended stay, and nothing else |
| FileBackend.File.Incr | storage/file.go:48-62 | replaces a record whose window is over, otherwise counts in place |
| FileBackend.File.Get | storage/file.go:64-77 | the count, or zero once its recorded window is over |
| FileBackend.File.Block | storage/file.go:79-89 | sets the ban on the record of the key, creating it if needed |
| FileBackend.File.IsBlocked | storage/file.go:91-98 | true exactly before the end of the ban |
| FileBackend.File.Save | storage/file.go:110-125 | the live records, and only they, stay in memory and are what the file parses to |
| FileBackend.File.AutoSave | storage/file.go:170-185 | saves and prunes exactly when dirty |
| FileBackend.File.constructor | storage/file.go:33-46 | loading the lines of a file gives the records they parse to |
| FileBackend.CloseAndReopen | storage/file.go:100-108 | closing and opening again restores exactly the live records |
| FileRecords.LegacyRecordIsRetired | storage/file.go:161-168 | a record without a window is read until a save more than five minutes after it was opened drops it |
| FileRecords.SavedIff | storage/file.go:110-121 | a save keeps exactly the records with a running ban or an unfinished window, five minutes standing in for a missing one |
| IpBlacklist.DetectedIff | httpval/ip_blacklist.go:36-51 | an address is reported if and only if the ban of some attack that returned true is running |
| IpBlacklist.Blacklist.RecordAttack | httpval/ip_blacklist.go:55-67 | counts the attack, and bans and returns true exactly at the threshold |
| IpBlacklist.Blacklist.Detect | httpval/ip_blacklist.go:37-51 | reports exactly the banned addresses |
| BanTrigger.FiresOnlyOnBurst | httpval/ip_blacklist.go:55-67 | true is returned only if Threshold attacks lie within one window length |
| BanTrigger.BurstFires | httpval/ip_blacklist.go:55-67 | among 2·Threshold−2 attacks within one window length some call returns true |
| BanTrigger.BoundIsSharp | storage/memory.go:45-51 | for every threshold above one, one attack fewer need not bring any count to it |
| BanTrigger.SharpRun | httpval/ip_blacklist.go:55-67 | a run of attacks, all but one of them within one window length, in which every call of RecordAttack returns false |
| BanTrigger.CounterSpans | storage/memory.go:40-52 | the counter counts the latest attacks back to the opening of its window, and the window before was over by then |
| NestedDepthModel.StreamingEqualsTree | httpval/nested_depth.go:36-72 | a stream of JSON values is reported if and only if the tallest exceeds MaxDepth or the elements exceed a positive MaxKeys; the figure is one past the limit, and otherwise the depth is back at zero |
| NestedDepthModel.DocumentEqualsTree | httpval/nested_depth.go:36-72 | the same for one document |
| NestedDepthModel.ReportIsFinal | httpval/nested_depth.go:52-71 | a reported prefix stays reported with the same result under any extension |
| NestedDepthModel.ReportedIff | httpval/nested_depth.go:36-72 | any input, complete, broken off or malformed, is reported if and only if the tokens before its end or first error nest deeper than MaxDepth somewhere or hold more than a positive MaxKeys elements |
| NestedDepthModel.ReportIsExact | httpval/nested_depth.go:52-71 | every report names one past the limit it names, and every other input ends with depth and elements inside both limits |
| NestedDepthModel.ReportNamesFirst | httpval/nested_depth.go:52-71 | a report names the first token that passes a limit, with the depth and the elements up to and including it |
| NestedDepthModel.UnclosedBracketsAreReported | httpval/nested_depth.go:15-17 | brackets that are never closed are flagged although no JSON value has these tokens |
| NestedDepthClass.NestedDepth.Detect | httpval/nested_depth.go:43-72 | the loop computes the same report as the fold over the tokens |
| NestedDepthClass.NestedDepth.constructor | httpval/nested_depth.go:23-29 | a depth limit that is not positive becomes 32 |

## Left out

- The regular-expression detectors, the `Engine` and the thin header and body checks: pattern tables and library calls without state.
- `storage/redis/redis.go`: its behaviour is that of a Redis server, which is not part of this model.
- File system work and crashes in `saveLocked`: a save never fails and the file keeps what was written.
- HTTP plumbing: header and cookie extraction, proxy headers, the `Guard` middleware around `Check`.
- JSON and RFC 3339 text: lists and sessions are stored and loaded without loss, deadlines as whole seconds. The source's JSON encoder replaces invalid UTF-8, which is not modelled.
- Store failures, and with them the fail-open and fail-closed branches, except for a stored value of the wrong kind.
- Goroutines and tickers: a sweep or an auto-save is a step that may happen between any two operations; locks in the stores make their operations atomic.
- Saturation of `time.Sub` at about 292 years, and counters beyond 64 bits: elapsed times and counts are unbounded integers. A record that was never started counts as older than every window.
- Client addresses that are text of the form base/prefix, which the source can confuse with the network of another client: unparsed text is a place of its own.
- Guessing through an empty identity: the source disables the identity checks for it, so the guess-rate bound is about non-empty identities.
- The response writer of net/http: only which code ends the response is modelled; a handler that panics, hijacks the connection or writes a code outside 100 to 999 is not.
- Clock readings inside one call of the Tracker other than before and after the handler: they are taken as equal, except in `Concurrency`.
- Concurrency.NoFalseLockout: interleaved calls can lose updates, so the count is bounded from above only; the guess-rate bound is about sequential runs.
- BackendRuns.SettledRefinesHistory: asks that the windows given for a key are positive and do not grow, which every caller in the library meets by using one window; `BackendRuns.MemoryAnswersHistoryIff` and `BackendRuns.FileAnswersHistoryIff` are exact for all windows.
- SignerRuns.AcceptedAtMostOnce: asks that nothing but the signer increments keys beginning with `sig:`.
- IpBlacklist.DetectedIff: is about the memory backend and an address nobody else blocks; on the file backend a new window can drop the ban.

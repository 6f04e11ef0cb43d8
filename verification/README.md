# Verified model of mcp-whatsapp's guards, reconciliation and codecs

The repository puts an MCP server in front of WhatsApp. Around the network
library it keeps several pieces of state and arithmetic whose promises cover
whole runs. This project models those pieces in Dafny and proves the promises.

| file | what it models |
|---|---|
| `SendHistory.dfy`, `SendProofs.dfy`, `SendLimits.dfy`, `SendOptimality.dfy`, `RateLimit.dfy` | the outbound sliding-window limiter: its decisions in terms of the whole history of admissions, guarantees over every run, what an observer can count on, when asking every time is best, and the object itself with its three slices pruned in place |
| `TokenBucket.dfy` | the per-endpoint token bucket with lazy refill |
| `Greedy.dfy` | the one argument behind both limiters' optimality: admitting every admissible event stays ahead of any other choice |
| `GroupParticipants.dfy`, `GroupProofs.dfy` | changing a group's participants: planning, batching, attributing replies across phone-number and LID identities, inviting |
| `PollVotes.dfy` | hashed poll ballots, the last-writer-wins vote table with its replay guard and clock clamp, and the tally |
| `MediaCache.dfy` | the download cache: directory entries, inodes, temp file plus rename, hard-link placement, every primitive able to fail |
| `OggWalk.dfy`, `VCard.dfy`, `PhoneMask.dfy` | the Ogg page walk, contact cards, phone masking |
| `Sequences.dfy` | shared vocabulary |

How it is modelled:

- Time is an integer number of nanoseconds on a clock that does not run
  backwards; clocks are parameters. The zero time is `None`.
- The limiter objects are classes. Go slices are a backing array and a length,
  so the in-place filtering is proved on the array. Each limiter carries ghost
  logs of every call, and its decisions are stated against those logs.
- Tokens are reals, so float rounding is not modelled.
- The WhatsApp server, the identity store, the outcome of an invite, media
  fetches, SHA-256 and every file-system failure are arbitrary parameters.
  What a theorem assumes about them is written in its `requires`.
- whatsmeow's JID is a user, a server and a device; dropping the device stands
  for its non-device form. Outcomes keep JIDs instead of their string form.
- A local slice updated through a pointer (the report's results) is a sequence
  variable that the loop reassigns.
- A temp file gets the first name free among random 32-bit numbers; which numbers
  are drawn, and how many before creation gives up, is a parameter.
- `Disk` records every state it passes through, so a claim about all recorded
  states covers a crash or another reader at any moment.

Results that differ from what the repository says about itself:

- `Decision.RetryAfter` is documented as how long until the same call would be
  admitted (`internal/ratelimit/ratelimit.go:56-58`). The windows are closed, so
  a denial by a cap repeats exactly then, with a retry time of zero, and passes
  one nanosecond later. `SendProofs.RetryExactIff` gives the exact condition, and
  `SendProofs.DefaultCapDenialRepeats` a run under the default limits.
- Asking at every opportunity is best for every mix of contacts and non-contacts
  exactly when `SendOptimality.SkippingPays` is false of the configuration: the
  non-contact cap is off, or too large to fill within an hour at its floor, or
  not below the global cap, or, with no global cap, sends have no floor. Under
  the default limits it is not: passing up one non-contact send can let two more
  through (`SendOptimality.DefaultLimitsBeaten`). Attempts of one kind are never
  beaten (`SendProofs.GreedyOptimal`).
- The tally counts a repeated option once per mark, so it is the number of
  voters exactly when no current selection repeats it
  (`PollVotes.TallyCountsVotersIff`, `PollVotes.RepeatedMarkCountsTwice`).
- A sender-chosen file name made of `.download-` and a 32-bit decimal number can
  coincide with the temp file, if nothing is cached under it yet; then the entry
  is seen empty, the deferred cleanup removes the file just saved, and the
  download still reports success. No other name can
  (`MediaCache.SafeNamesStayApart`, `MediaCache.CollidingNameLosesFile`).
- An output left truncated by a cross-device copy that failed is handed out as a
  success by the next call, because an existing output is not checked
  (`MediaCache.TruncatedOutputIsAccepted`).
- The Opus header of a mapping-family-0 stream is never read: its fields are
  looked for past its 19 bytes, so the duration leaves the pre-skip in
  (`OggWalk.FamilyZeroIgnored`). `OggWalk.PreSkipMissed` says exactly when that
  gives the wrong number of seconds and `OggWalk.PreSkipWitness` shows a stream
  where it does. Where a header is read, its rate may be completed with bytes of
  the next page (`OggWalk.RateCrossesPage`). A final page without payload is not
  read at all: `OggWalk.LastGranuleUsedIff` says when that loses the end of the
  stream and `OggWalk.EmptyEndWitness` shows it lost.
- Writing a message row again drops its poll options, and a ballot that arrives
  while they are not known is dropped for good (`PollVotes.PollStore.StoreMessage`,
  `PollVotes.EarlyBallotIsLost`).

## Model

| member | source | states |
|---|---|---|
| RateLimit.PruneBefore | internal/ratelimit/ratelimit.go:149-157 | the in-place filter leaves, in order, exactly the times not before the cutoff, for any contents |
| RateLimit.Append | internal/ratelimit/ratelimit.go:117-119 | append keeps the live entries and adds one, in place while there is capacity, else in a fresh array |
| RateLimit.Limiter.AllowSend | internal/ratelimit/ratelimit.go:87-123 | the decision is the one the whole admission history calls for, however much was pruned; only an admission changes the history; lookups are untouched |
| RateLimit.Limiter.AllowUsync | internal/ratelimit/ratelimit.go:127-138 | the same for lookups, sharing nothing with sends |
| RateLimit.Limiter.LimitsKept | internal/ratelimit/ratelimit.go:65-76 | whatever calls a limiter has seen, all it admitted respects every floor and every closed window |
| SendProofs.SlotFrees | internal/ratelimit/ratelimit.go:159-171 | the time until the oldest entry expires is never negative, and the window gives up a slot exactly after it |
| SendProofs.SinceSince | internal/ratelimit/ratelimit.go:92-94 | pruning repeatedly with growing cutoffs loses nothing a later window needs |
| SendProofs.AdmitIffLegal | internal/ratelimit/ratelimit.go:96-122 | a send is admitted exactly when recording it keeps every floor and every closed-hour cap, wherever the hour starts |
| SendProofs.WindowSafety | internal/ratelimit/ratelimit.go:92-122 | on every run in clock order the admitted sends respect every floor and both closed-hour caps |
| SendProofs.UsyncSafety | internal/ratelimit/ratelimit.go:127-138 | on every run every closed minute stays within the lookup cap, and a lookup is admitted exactly when that remains so |
| SendLimits.LimitsOnEveryRun | internal/ratelimit/ratelimit.go:96-122 | on every run each send follows the one before by the minimum interval, and one to a non-contact by the non-contact minimum too; no closed hour of 3600 s exceeds a cap |
| SendLimits.DenialSaysWhy | internal/ratelimit/ratelimit.go:96-122 | the reason is the interval exactly when a minimum that applies is not over, else the hourly cap when the hour is full, else the non-contact cap when its hour is; otherwise the call passes |
| SendLimits.IntervalWaitIsExact | internal/ratelimit/ratelimit.go:96-105 | the wait advertised by an interval denial ends exactly when every minimum that applies is over |
| SendLimits.LookupDenialSaysWhy | internal/ratelimit/ratelimit.go:132-137 | a lookup is denied exactly when the closed minute that ends with it holds the cap |
| SendLimits.DefaultFiveMinutes | internal/ratelimit/ratelimit.go:43-54 | under the default limits no five minutes hold more than 7 sends or more than 4 to non-contacts |
| SendLimits.DefaultCaps | internal/ratelimit/ratelimit.go:43-54 | nor an hour more than 30 sends, 15 of them to non-contacts, nor a minute more than 3 lookups |
| SendProofs.Erasure | internal/ratelimit/ratelimit.go:83-87 | dropping any denied calls from a run changes no admission and no other decision |
| SendProofs.GreedyOptimal | internal/ratelimit/ratelimit.go:87-123 | for attempts of one kind no permitted choice admits more, and the k-th admission is never later than a rival's |
| SendOptimality.MixedOptimal | internal/ratelimit/ratelimit.go:92-120 | with contacts and non-contacts mixed, where skipping cannot pay no permitted choice admits more or its k-th earlier |
| SendOptimality.SkippingWins | internal/ratelimit/ratelimit.go:92-120 | where it can, passing up one non-contact send of a given run gets one more send through |
| SendOptimality.AlwaysBestIff | internal/ratelimit/ratelimit.go:92-120 | asking every time is best for all mixes if and only if the non-contact cap is off, cannot fill within an hour, is not below the global cap, or, that cap being off, there is no floor |
| SendOptimality.DefaultLimitsBeaten | internal/ratelimit/ratelimit.go:46-54 | the default limits are among those that can be beaten, with the run |
| SendProofs.AllowedFromReady | internal/ratelimit/ratelimit.go:96-114 | after any history a kind of send passes exactly from one computed instant on |
| SendProofs.RetrySound | internal/ratelimit/ratelimit.go:96-114 | after a denial with retry time r no call of that kind passes before t+r, whatever happens in between |
| SendProofs.RetryExactIff | internal/ratelimit/ratelimit.go:56-58 | retrying exactly at the advertised time works if and only if the floor denied and no cap is full when it elapses |
| SendProofs.CapDenialRepeats | internal/ratelimit/ratelimit.go:108-114 | a cap denial repeats at the advertised time with the same reason and a retry time of zero |
| SendProofs.DefaultCapDenialRepeats | internal/ratelimit/ratelimit.go:46-54 | a run under the default limits where a cap denial says 20 seconds and repeats then |
| SendProofs.CapRetryAfterExpiry | internal/ratelimit/ratelimit.go:108-114 | strictly after it, a contact stopped by the global cap and a non-contact stopped by its own cap pass |
| SendProofs.UsyncRetrySound | internal/ratelimit/ratelimit.go:132-135 | a denied lookup stays denied through the advertised instant, whatever lookups come in between |
| SendProofs.UsyncRetry | internal/ratelimit/ratelimit.go:132-135 | with none in between it passes right after that instant and no earlier |
| SendProofs.UsyncOptimal | internal/ratelimit/ratelimit.go:127-138 | no choice of lookups within the cap gets more through, or its k-th through earlier |
| SendProofs.UsyncErasure | internal/ratelimit/ratelimit.go:125-138 | dropping denied lookups changes no admission and no other decision, retry time included |
| SendProofs.SpanBound | internal/ratelimit/ratelimit.go:43-54 | any span holds at most span/floor+1 sends and at most cap*(hours+1) |
| SendProofs.DefaultBoundsFiveMinutes | internal/ratelimit/ratelimit.go:43-54 | under the default limits five minutes never hold more than 7 sends |
| Greedy.TakeStaysAhead | internal/ratelimit/ratelimit.go:116-122 | for any rule that waiting cannot break, taking every admissible event is never shorter and never later than another choice that respects the rule |
| Greedy.TakeIsSpaced | internal/ratelimit/ratelimit.go:116-122 | what is taken respects the rule |
| Greedy.TakeErasure | internal/ratelimit/ratelimit.go:83-87 | dropping events that were not taken changes nothing that was |
| TokenBucket.Limiter.Allow | internal/daemon/ratelimit.go:47-70 | a call passes exactly when no span ending at it would exceed burst + rate*length; the level before it is the least of burst and burst + refill - grants over all earlier calls |
| TokenBucket.LevelAfterRefill | internal/daemon/ratelimit.go:57-62 | lazy refill with the clamp at burst yields that least bound |
| TokenBucket.RemainingAfter | internal/daemon/ratelimit.go:65-69 | taking a token keeps the stored amount equal to the least bound |
| TokenBucket.LevelUnique | internal/daemon/ratelimit.go:57-62 | the least bound pins the level down |
| TokenBucket.LevelInRange | internal/daemon/ratelimit.go:57-62 | on every run the level stays between 0 and burst |
| TokenBucket.SpanWithin | internal/daemon/ratelimit.go:47-70 | on every run each span takes at most burst + rate*length grants |
| TokenBucket.SpanInSeconds | internal/daemon/ratelimit.go:57-69 | calls within s whole seconds take at most burst + rate*s grants |
| TokenBucket.PairPageMinute | internal/daemon/pair_handler.go:77-77 | the pairing page grants at most 20 calls in any minute |
| TokenBucket.PairPageSixthWaits | internal/daemon/pair_handler.go:77-77 | from a full bucket it grants five calls and turns away a sixth within four seconds |
| TokenBucket.NeverStarved | internal/daemon/ratelimit.go:57-69 | a call one token's refill after the previous one is always let through |
| TokenBucket.PairPageSurvivesRefresh | internal/daemon/pair_handler.go:77-77 | a five-second refresh against 15 per minute with burst 5 is never denied, after any history |
| TokenBucket.AdmissibleByGrants | internal/daemon/ratelimit.go:65-69 | spans that start at a denied call are never the binding ones |
| TokenBucket.BucketOptimal | internal/daemon/ratelimit.go:47-70 | no choice of calls that fits the bucket takes more grants or takes its k-th earlier |
| TokenBucket.Erasure | internal/daemon/ratelimit.go:65-67 | dropping denied calls changes no grant |
| GroupParticipants.FindParticipant | internal/client/features_groups.go:319-328 | the first member that any of the ids identifies, or none when none does |
| GroupParticipants.ResultFor | internal/client/features_groups.go:407-425 | an entry of the reply, one that matches directly if there is one; none only if no rule applies |
| GroupProofs.NoInviteSaysWhy | internal/client/features_groups.go:464-491 | a blocked add stays invite_required with its reason, is invite_failed only after a failed send, and an invite id is that of an invite that went out |
| GroupParticipants.PlanParticipantChange | internal/client/features_groups.go:353-391 | succeeds exactly when identities differ and the paired user is spared; outcomes and pending changes as planned; an error names the first offence |
| GroupParticipants.Job.PendingShape | internal/client/features_groups.go:382-388 | pending indices strictly increase and members are addressed by the group's own JID |
| GroupParticipants.ParticipantBatches | internal/client/features_groups.go:289-298 | one change a request for adds to a LID group, else everything in one |
| GroupParticipants.UpdateGroupParticipants | internal/client/features_groups.go:191-270 | succeeds exactly when the checks pass and the first request is not refused, the first check that fails naming the error; nothing is sent unless the paired user's own entry is an admin, or the action is an add and all members may add; adds to a LID group carry one change a request, anything else goes in one; an error leaves at most one refused request and no invite; otherwise every pending index is settled by its own batch and the rest stays as planned |
| GroupParticipants.SendBatches | internal/client/features_groups.go:238-268 | only a refused first request fails the call; each batch settles its own results |
| GroupProofs.SettleTells | internal/client/features_groups.go:257-266 | a matched result reports the entry's id and code, success only on code 0, an invite status exactly for a blocked add |
| GroupProofs.SettleDecides | internal/client/features_groups.go:245-266 | settling keeps the input and always decides the status, invite_sent only on request |
| GroupProofs.ReplyIsAboutSamePerson | internal/client/features_groups.go:407-425 | whichever rule picks a reply entry, it names the person asked for |
| GroupProofs.TargetIsRequested | internal/client/features_groups.go:357-388 | the address sent names the person the caller gave |
| GroupParticipants.Call.EntitledIff | internal/client/features_groups.go:333-346 | the permission check passes exactly when the paired user's own entry is an admin, or the action is an add and all members may add |
| GroupParticipants.MatchesIffCarries | internal/client/features_groups.go:301-317 | an entry is an account's exactly when one of its three ids has that user and server, devices aside |
| GroupProofs.MemberIsFirstToAnswer | internal/client/features_groups.go:357-361 | a request concerns the first member that carries its id or the LID stored for its number, and nobody in the group only if none does |
| GroupProofs.EntryIsFound | internal/client/features_groups.go:394-425 | an entry that carries the id asked for is used, else one whose LID is stored for that number, else the only one for the only request |
| GroupProofs.SelfRefusalIsSelf | internal/client/features_groups.go:378-379 | a removal refused for naming the paired user does name it |
| GroupProofs.SettledByItsPerson | internal/client/features_groups.go:255-266 | with true mappings and replies only about people sent, a pending change is settled by what an entry about that same person said, with the status that entry calls for |
| GroupProofs.EveryOutcomeIsAboutItsPerson | internal/client/features_groups.go:238-268 | so for every line of a finished report |
| GroupProofs.LoneReplyAlwaysMatches | internal/client/features_groups.go:285-298 | an add to a LID group answered with one entry leaves nobody without a result |
| GroupProofs.ReportComplete | internal/client/features_groups.go:173-181 | one decided outcome per input in request order; not_member and already_member exactly where the plan says |
| GroupProofs.InvitedSays | internal/client/features_groups.go:473-490 | the result says invite_sent exactly when the invite went out |
| GroupProofs.InviteSentIffInvited | internal/client/features_groups.go:264-266 | a result says invite_sent exactly when an invite went to that address, and only when asked to |
| GroupProofs.InvitesOrdered | internal/client/features_groups.go:468-491 | no result is invited twice |
| GroupProofs.RepeatIsSamePerson | internal/client/features_groups.go:368-370 | a request refused as a repeat really names the same person |
| GroupProofs.MembersDiffer | internal/client/features_groups.go:361-371 | accepted requests that reach members reach different people |
| GroupProofs.NewcomersNotKnownSame | internal/client/features_groups.go:361-371 | accepted newcomers are not known to be one account, by number or LID |
| GroupProofs.SelfNotRemoved | internal/client/features_groups.go:378-379 | a removal never reaches the paired user |
| PollVotes.PollStore.StoreMessage | internal/store/store.go:171-183 | a message row is written anew, which drops its options; a blank message writes none |
| PollVotes.PollStore.StorePollMetadata | internal/store/poll.go:21-35 | options are attached to an existing message row only |
| PollVotes.AttachedOptionsAreListed | internal/store/poll.go:21-56 | what is attached to a row is what the poll's results list, whole and in order, other polls being as before |
| PollVotes.OptionsAreLastAttached | internal/store/poll.go:21-56 | over any run a poll's options are those of the last step that attached some to a row, unless the row has been written again since |
| PollVotes.PollStore.StorePollVote | internal/store/poll.go:77-99 | the row is written unless a strictly newer one is there; incomplete keys are refused |
| PollVotes.PollStore.HandlePollVote | internal/client/events.go:477-530 | an undecryptable, incomplete or unknown-poll ballot changes nothing; any other is decoded, clamped and upserted |
| PollVotes.PollStore.DecodeBallot | internal/client/events.go:505-515 | each digest becomes the first option with that digest, in ballot order, unknown ones dropped |
| PollVotes.UnknownMarkIsDropped | internal/client/events.go:505-515 | a digest no option has adds nothing, wherever it stands |
| PollVotes.RowIffRecorded | internal/client/events.go:491-527 | a voter has a row exactly when a ballot with complete keys came while the poll's options were known |
| PollVotes.DecodeInvertsHash | internal/client/events.go:505-515 | decoding undoes hashing for any choice among the options when the hash separates them |
| PollVotes.PollStore.GetPollResults | internal/store/poll.go:103-147 | one line per option in poll order, counting every mark on the poll's current rows in whatever order they are read; unknown marks and corrupt rows ignored |
| PollVotes.TallyCountsVotersIff | internal/store/poll.go:131-136 | the tally is the number of supporters if and only if no current selection repeats the option, and never less |
| PollVotes.RepeatedMarkCountsTwice | internal/store/poll.go:131-136 | one voter marking an option twice is counted twice |
| PollVotes.RowIffVoted | internal/store/poll.go:77-99 | a key has a row exactly when some vote names it |
| PollVotes.RowIsLatest | internal/store/poll.go:73-99 | a key's row is the last-arriving among its votes with the greatest time |
| PollVotes.Convergence | internal/store/poll.go:73-99 | reordering and replaying votes gives the same table when ties agree |
| PollVotes.EndToEndCount | internal/client/events.go:472-530 | after any run of messages, options and ballots that is honest on a poll, ballots dated ahead included, the tally of an option is the number of voters whose latest recorded ballot marks it |
| PollVotes.EarlyBallotIsLost | internal/client/events.go:495-503 | a ballot before its poll's options is dropped and not recorded later |
| PollVotes.StoredNotAheadOfClock | internal/client/events.go:517-522 | no stored time is ahead of the clock |
| PollVotes.AheadCountsAsNow | internal/client/events.go:517-522 | a ballot dated ahead is stored as cast when it was handled |
| PollVotes.FutureDatesDoNotSuppress | internal/client/events.go:517-522 | a far-future ballot cannot shut out one dated since it was handled |
| MediaCache.Disk.ReplaceCacheFile | internal/client/download.go:223-242 | at every intermediate state nothing but the entry changes and, unless the temp file lands on it, the entry holds the whole old or whole new file; if it does land there the file is lost |
| MediaCache.Disk.PlaceAtOutput | internal/client/download.go:269-295 | succeeds exactly when the source is there and the link, or the copy if the output is free, goes through; a new output has the source's bytes, an existing one is left alone, nothing that existed changes; a copy that stops leaves a prefix |
| MediaCache.Disk.FinalizeDownload | internal/client/download.go:248-263 | the cached path, or the output exactly when it could be placed |
| MediaCache.Disk.Download | internal/client/download.go:55-183 | from any cache state nothing but the message's own entry ever changes; unless the temp file lands on it, the entry is at every moment as before or valid, and success hands out bytes that pass the recorded length and digest, or an output that was already there; with a valid cache entry or a good fetch it succeeds, given an output exactly when that could be placed |
| MediaCache.HandsOutAsRecorded | internal/client/download.go:185-221 | a success hands out bytes of the recorded length and SHA-256, unless the output was there before; if neither cache nor fetch has them the call fails and changes nothing |
| MediaCache.SettledBeforeCache | internal/client/download.go:60-106 | which refusal, or which existing output, comes before the cache is looked at |
| MediaCache.CachedFileIsServed | internal/client/download.go:117-125 | a cached file of the recorded length and digest is served as it is |
| MediaCache.CachedFileIsLinked | internal/client/download.go:117-125 | and linked to a free output, one file under both names |
| MediaCache.GoodFetchIsStored | internal/client/download.go:127-183 | with a complete record and nothing cached a good fetch is stored and served |
| MediaCache.IncompleteRecordFails | internal/client/download.go:127-149 | with an incomplete record or an unknown kind, and no good file cached, the call fails and changes nothing |
| MediaCache.SafeNamesStayApart | internal/client/download.go:223-229 | a name can collide with the temp file if and only if it is the prefix and a 32-bit decimal number |
| MediaCache.CollidingNameLosesFile | internal/client/download.go:172-182 | on a collision the download reports success and there is no file at the path |
| MediaCache.TruncatedOutputIsAccepted | internal/client/download.go:84-96 | a truncated output is later handed out as a success |
| MediaCache.HexInjective | internal/client/download.go:107-107 | different message IDs have different directory names |
| MediaCache.MessagesNeverShareAnEntry | internal/client/download.go:103-113 | two messages of a chat never share a cache entry, whatever their file names |
| MediaCache.EntryNamesMessage | internal/client/download.go:103-113 | an entry belongs to one message of one chat under one name |
| MediaCache.DownloadAll | internal/client/download.go:55-183 | over any sequence of downloads, fetches and faults, an output there at the start or placed by an earlier call keeps its bytes at every moment of all later calls |
| OggWalk.AnalyzeOggOpus | internal/media/audio.go:20-90 | the loop on any bytes equals the recursive walk and its verdict, resynchronising and faulting where the program does |
| OggWalk.TurnOnePage | internal/media/audio.go:35-71 | one turn at a page start consumes exactly that page and keeps its granule if not zero |
| OggWalk.WellFormedDuration | internal/media/audio.go:30-86 | on every concatenation of well-formed pages exactly the page starts are visited and the duration is the clamped ceiling of the last non-zero granule over 48000, or the length estimate |
| OggWalk.AnnouncedSeconds | internal/media/audio.go:73-86 | the fewest whole seconds that hold the last granule's samples at 48 kHz, or a second for every 2000 bytes, always 1 to 300 |
| OggWalk.HeadedDuration | internal/media/audio.go:51-86 | where the first page's header is read, its bytes 18 to 23 give the pre-skip taken off and the rate divided by |
| OggWalk.JunkIsSkipped | internal/media/audio.go:35-38 | bytes that start no capture pattern are skipped one by one to the next that do |
| OggWalk.RefusedIffNotOgg | internal/media/audio.go:21-23 | data is refused exactly when it does not begin with the capture pattern |
| OggWalk.RateCrossesPage | internal/media/audio.go:58-61 | a header cut short by its page takes the last bytes of its rate from the next page |
| OggWalk.PreSkipMissed | internal/media/audio.go:73-86 | a family-0 stream's duration is its playing time if and only if the pre-skip stays within the last second or the clamp hides it |
| OggWalk.PreSkipWitness | internal/media/audio.go:73-86 | a stream of less than a second announced as two |
| OggWalk.AllTakenIff | internal/media/audio.go:42-44 | every page is taken if and only if the last one has payload |
| OggWalk.LastGranuleUsedIff | internal/media/audio.go:30-44 | the walk uses the stream's last granule position if and only if the last page has payload or says nothing new |
| OggWalk.EmptyEndWitness | internal/media/audio.go:42-44 | a three-second stream closed by an empty page is announced as two |
| OggWalk.FamilyZeroIgnored | internal/media/audio.go:54-65 | a family-0 header is never read |
| OggWalk.FamilyZeroStream | internal/media/audio.go:54-65 | a family-0 stream meets the walk's assumption |
| VCard.UnescapeInverts | internal/client/vcard.go:57-66 | unescaping by section 3.4 of RFC 6350 undoes the escaping, up to removed carriage returns |
| VCard.ExactIffNoCR | internal/client/vcard.go:61-61 | nothing is lost exactly when the text has no carriage return |
| VCard.EscapeInjective | internal/client/vcard.go:57-66 | names that escape alike differ at most in carriage returns |
| VCard.EscapedIsOneLine | internal/client/vcard.go:57-66 | escaped text never breaks a line |
| VCard.CardLines | internal/client/vcard.go:25-42 | the card splits at CRLF into exactly its 5 or 6 lines, whatever the name |
| VCard.CardRoundTrip | internal/client/vcard.go:9-43 | the name given, or else the number, and the digits are recovered from the card alone |
| VCard.DigitsAreKept | internal/client/vcard.go:45-55 | of a phone its digits are kept, all of them and in order, and nothing else |
| VCard.EscapedIsOnePart | internal/client/vcard.go:57-66 | escaped text never ends early where text is split at commas or semicolons |
| PhoneMask.MaskLeavesNoLongRun | internal/security/redactor.go:113-118 | the masked text has no run of ten or more digits |
| PhoneMask.MaskIdempotent | internal/security/redactor.go:113-118 | text is unchanged exactly when it has no long run, and masking twice is masking once |
| PhoneMask.MaskByParts | internal/security/redactor.go:113-130 | each whole number with its plus sign becomes stars and its last five digits, every other character is copied |

## Left out

- SendProofs.GreedyOptimal: for attempts of one kind; for mixed attempts the exact condition is SendOptimality.AlwaysBestIff.
- RateLimit.Limiter.AllowSend: the mutex and the saturation of 64-bit durations are not modelled; calls are taken one at a time.
- TokenBucket.Limiter.Allow: tokens are exact reals, so float64 rounding is not modelled.
- GroupParticipants.UpdateGroupParticipants: parsing of JIDs and of the action is a parameter, error texts are constructors, and saving the sent invite to the local store is omitted.
- GroupProofs.NewcomersNotKnownSame: two ids the store cannot connect may still be one person; the code cannot know either.
- PollVotes.PollStore.GetPollResults: SQL and JSON are exact encodings, database errors are omitted.
- PollVotes.Convergence: votes of one voter with equal times must agree, because then the last to arrive wins.
- MediaCache.Disk.Download: path sanitising, symlinks, permissions and other processes writing in between are not modelled.
- OggWalk.AnalyzeOggOpus: a slice past the data, whose effect depends on spare capacity, is one outcome; seconds beyond 32 bits and a zero rate are unspecified; the waveform is omitted.
- OggWalk.WellFormedDuration: for streams whose early pages have no readable codec header; OggWalk.HeadedDuration takes one on the first page, and one readable only on a second page is left out.
- The operator override of the limiter, contact lookup and the callers that consult the limiter.
- whatsmeow, the MCP tools, the HTTP handlers, the pairing flow, the other store queries and the rest of the redactor.

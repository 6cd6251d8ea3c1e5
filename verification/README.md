# Specivo: verified core logic

A Dafny model of nine pieces of Specivo's backend, with proofs of what they promise.

| file | what it models |
|---|---|
| `McpSessions.dfy`, `McpProtocol.dfy`, `McpContinuity.dfy`, `McpRecording.dfy` | the MCP session manager: which transport serves a request, and how a session outlives restarts, idle discards, races and key revocations |
| `SessionStore.dfy` | session metadata in Redis with a sliding expiry |
| `RateLimit.dfy` | the sliding-window limiter over a Redis sorted set |
| `RefScanner.dfy`, `Refs.dfy`, `RefsSpec.dfy`, `RefsScope.dfy`, `RefsScopeExact.dfy`, `RefsRoundTrip.dfy`, `RefsGlue.dfy`, `RefsTimes.dfy`, `RefsMatches.dfy`, `RefsVocabulary.dfy` | issue references, keywords and logged time in commit messages and branch names |
| `PullRequests.dfy` | the issues a pull request links to, and the order in which forge events apply |
| `CommentOpeners.dfy` | the rewriting of unclosed HTML comment openers before full-text indexing |
| `NaturalSort.dfy` | the natural order of names |
| `Tokens.dfy` | revocation of access tokens with expiring markers |
| `ClientIp.dfy` | the client's entry in a list of forwarded addresses |
| `Backfill.dfy` | the paged rebuild of the search index |
| `Wrappers.dfy`, `Ascii.dfy`, `Clock.dfy`, `Sequences.dfy`, `Ordered.dfy`, `OrderedDicts.dfy` | an option type, characters and decimal numbers, time in microseconds, laws of concatenation, the ascending order of a set, Python's ordered dict |

`dafny verify dfyconfig.toml` checks everything.

## How the code is modelled

Code that updates state in place is a class or a loop here too: `SessionManager` (the two dicts
of the manager), `RedisSessionStore`, `RateLimiter`, `Blocklist`, `Backfill.Run`, and the loops
of `extract_refs`, `_dedupe` and `pull_request_links`. Each such method is proved equal to a
function of its inputs and of the old state. The properties are then proved about those
functions, over every input, every run or every interleaving.

Concurrent code is a transition system with one step for each stretch of code between two
awaits. A run is a sequence of states and steps from the initial state. A step may be any
client's, and restarts, expiry, lost writes, failing lookups and the clock are steps as well.

Strings are ASCII where case or digits matter. Regular expressions are scanners, and each
scanner is proved to find exactly what a declarative reading of its expression matches.

### Assumptions

- Redis: a key is gone from its deadline on, and every command or pipeline is one atomic step.
  One clock serves the processes and Redis.
- Sessions: the SDK forgets a session only while its id still maps to the transport that ends
  (`_discard_session`, not part of this model). New session ids are fresh. A raw key belongs to
  one `api_key_id` and never changes owner; it can become unusable and usable again. The SDK
  compares digests of raw keys (`specivo/mcp/auth.py:54-63`); the model compares the keys.
- Rate limiter: clock readings strictly increase in the order in which pipelines run, since the
  reading is the member's name. A pipeline reaches Redis within one second of the reading. Both
  are needed: equal readings share a member and break the bound (`EqualReadingsCollide`), and a
  longer delay makes the expiry forget a request (`LateCheckForgets`).
- Access tokens: `access_token_expire_minutes` does not change. Revocations commit: the marker is
  written before the transaction ends (`specivo/services/session_service.py:143-172`), and a
  rollback would bring the rows back while the marker expires. Renewal and revocation of one
  session exclude each other by the session lock (`specivo/services/auth_service.py:470-482`).
- Backfill: the database is quiescent. A deleted item loads nothing, and an empty comment has no
  chunks (`specivo/services/search_index_service.py:126-227`, `specivo/services/chunking_service.py:272-273`).

### Where the code is narrower than its description

- `retry_after` is the least sufficient wait only for a limit of one or more. With a limit of
  zero or less no wait is enough (`NoLimitNeverAllows`).
- A merge is final, so deliveries end at the greatest update time exactly when no event is newer
  than every merged one (`EndsAtGreatestIff`; `LaterOpenIsIgnored` is a delivery that fails it).
- A smaller key scope filters issues and times exactly, but may turn `fixes` into `refs`: in
  `Fixes A-1, B-2, A-3` with scope {A} the last reference no longer fixes
  (`OutOfScopeBreaksTheList`). A reference keeps `fixes` exactly when some mention of its issue
  takes the word through mentions of the smaller scope alone (`SmallerScopeFixesIff`).
- The comment says that every opener before the last closer has a closer. `<!-->` and `<!--->`
  overlap theirs (`OverlappingOpenersStay`). Such openers are exactly those left without a closer
  (`UnclosedIff`), there is at most one, and the bound holds all the same (`AtMostOneUnclosed`,
  `RewriteIsLinear`).
- The comment says that with fewer entries than hops the leftmost was written by the first proxy
  that saw the request. That holds exactly when the client wrote no entry of its own
  (`FirstProxyIsChosenIff`); otherwise the client's entry counts (`SkippedProxiesLetClientChoose`).
- The paging of the backfill starts above zero, so an id of zero or less is never visited
  (`IndexAgrees`).
- A list separator can glue itself to a reference, which is then none: the round trip holds
  exactly when no separator is empty or starts or ends in a word character
  (`PrintThenExtractIff`, `GluedByAnd`).
- Concurrent rehydrations end at one transport exactly when it is not discarded and the process
  does not restart between them (`SameTransport`).
- A touch that looked in time and writes after the expiry makes an entry without an owner
  (`LateTouchRecreates`). It can never be resumed (`EntriesNameTheOpener`,
  `OnlyTheOpenerIsServed`).

## Model

| member | source | states |
|---|---|---|
| McpSessions.SessionManager.RouteRequest | specivo/mcp/persistent_session_manager.py:358-384 | the in-memory check hands out a transport only to the recorded owner, refuses any other credential, and sends unknown ids to Redis |
| McpSessions.SessionManager.StartTransport | specivo/mcp/persistent_session_manager.py:495-516 | under the lock: the transport another request has just started, or none when `max_sessions` are open, or a new one with its owner recorded; a rehydrated one is born initialized |
| McpSessions.SessionManager.DiscardSession | specivo/mcp/persistent_session_manager.py:376-379 | a session is forgotten, owner and all, only while its id maps to that transport |
| McpSessions.PayloadNamesOwner | specivo/mcp/persistent_session_manager.py:264-279 | what a new session persists names its verified owner, whatever the request's user agent |
| McpSessions.PayloadDescribesSession | specivo/mcp/persistent_session_manager.py:264-279 | beside its owner a new session persists its two times, its transport and, when it has one, its user agent, and nothing else |
| McpSessions.RefreshKeepsOwner | specivo/mcp/session_store.py:162-167 | a refresh never makes an owner and never changes one, also when it recreates the entry |
| McpSessions.TextsAreInjective | specivo/mcp/persistent_session_manager.py:425-428 | comparing owners as text is comparing owners |
| McpProtocol.OwnerIsOpener | specivo/mcp/persistent_session_manager.py:405-429 | a request whose key resolves to the recorded owner presents the credential that opened the session |
| McpProtocol.StepKeeps | specivo/mcp/persistent_session_manager.py:333-567 | every step of every party keeps the protocol's invariant, and no session or key is ever forgotten |
| McpProtocol.InvHolds | specivo/mcp/persistent_session_manager.py:333-567 | the invariant holds in every state of every run |
| McpContinuity.OpeningsAreRecorded | specivo/mcp/persistent_session_manager.py:504-516 | the openings used by the proofs are exactly the steps in which a request without an id started a session |
| McpContinuity.OnlyTheOpenerIsServed | specivo/mcp/persistent_session_manager.py:358-403 | in every interleaving a request with a session id reaches a transport only with the credential that opened that session, inside the lock too; the transport skipped the handshake exactly when it is not the first |
| McpContinuity.EntriesNameTheOpener | specivo/mcp/persistent_session_manager.py:264-279 | in every run an entry with both owner fields names the owner of the credential that opened the session |
| McpContinuity.NeverMoreThanMaxSessions | specivo/mcp/persistent_session_manager.py:501-502 | there are never more than `max_sessions` live transports |
| McpContinuity.TransportStays | specivo/mcp/persistent_session_manager.py:495-514 | a live transport is never replaced: its id maps to it until it is discarded or the process restarts |
| McpContinuity.SameTransport | specivo/mcp/persistent_session_manager.py:495-499 | all requests given a transport for one session get the same one, however many rehydrate at once, if and only if it is not discarded and the process does not restart in between |
| McpContinuity.OpeningIsDurable | specivo/mcp/persistent_session_manager.py:264-279 | a session opened with a usable key can be resumed from the moment it is recorded for as long as its expiry |
| McpContinuity.StaysDurable | specivo/mcp/persistent_session_manager.py:385-403 | nothing but expiry, loss of the entry or an unusable key ends that: no restart, discard, race or request of anyone |
| McpContinuity.RestartMakesRoom | specivo/mcp/persistent_session_manager.py:501-502 | a restart or a discard never takes away the room a session needs |
| McpContinuity.NeverTurnedAway | specivo/mcp/persistent_session_manager.py:385-403 | a request with the session's id and key is never answered 404 or 503, in any interleaving, if at its own steps the session is durable, the stores answer and there is room |
| McpContinuity.StaysDurableUntil | specivo/mcp/persistent_session_manager.py:385-403 | over every run of steps none of which endangers it, a durable session stays durable |
| McpContinuity.KeepsWorking | specivo/mcp/persistent_session_manager.py:385-403 | once durable, a session keeps working over the rest of the run: every later request with its id and key is on its way to one of its transports, through any restarts, discards and races, while nothing endangers it, the stores answer and there is room |
| McpContinuity.StepsComeToAnEnd | specivo/mcp/persistent_session_manager.py:473-567 | each step of a request brings it closer to its answer, and no step of another sends it back |
| McpContinuity.NoDeadlock | specivo/mcp/persistent_session_manager.py:495-567 | a request without an answer can take a step, or waits for a holder of the lock that can |
| McpRecording.RefusedOnlyWhenFull | specivo/mcp/persistent_session_manager.py:501-502 | over every run a request without a session id is never answered 404, and is answered 503 only if at its turn under the lock `max_sessions` were open |
| McpRecording.ServedOnceRecorded | specivo/mcp/persistent_session_manager.py:558-569 | over every run a request that opens a session with a usable key is served only after a step that wrote its record, from which the session can be resumed with that key, if the database answers and the write lands |
| McpRecording.RecordedOnlyWhenResolved | specivo/mcp/persistent_session_manager.py:264-279 | over every run the owner about to be recorded is what the database resolved the request's own key to |
| McpRecording.ResumedOnlyWithUsableKey | specivo/mcp/persistent_session_manager.py:405-429 | over every run a request reaches the lock with a session id only after the database found its key usable |
| McpRecording.ServedOnceExtended | specivo/mcp/persistent_session_manager.py:385-403 | a rehydrated session is served only after its expiry was restarted, if Redis answers, the entry is still there and the write lands |
| McpRecording.HitsExtend | specivo/mcp/persistent_session_manager.py:287-294 | a request served from memory, and no other, leaves a touch in the background, whose write follows when it finds the entry |
| McpRecording.BackgroundWriteExtends | specivo/mcp/session_store.py:169-183 | that write restarts the expiry in full |
| McpRecording.LooksFollowHits | specivo/mcp/persistent_session_manager.py:358-384 | over every run a look in the background was left by a request served from memory |
| McpRecording.WritesFollowLooks | specivo/mcp/session_store.py:169-183 | over every run a write in the background follows a look that found the record |
| McpRecording.RefreshingFollowsLook | specivo/mcp/session_store.py:169-183 | and so does the write of a rehydration |
| SessionStore.RedisSessionStore.Create | specivo/mcp/session_store.py:116-138 | the entry is replaced by the stamps and every value that is not None, with a full expiry |
| SessionStore.RedisSessionStore.Peek | specivo/mcp/session_store.py:140-148 | the live fields, and nothing changes |
| SessionStore.RedisSessionStore.Get | specivo/mcp/session_store.py:150-167 | what was live at the read, stamped; the write restarts the expiry, or makes a bare entry if the key has gone since |
| SessionStore.RedisSessionStore.Touch | specivo/mcp/session_store.py:169-183 | true exactly when the key was live at the look; then the entry is refreshed |
| SessionStore.RedisSessionStore.Delete | specivo/mcp/session_store.py:185-187 | that entry goes, all others stay |
| SessionStore.RedisSessionStore.Exists | specivo/mcp/session_store.py:189-191 | true exactly for a live entry |
| SessionStore.PayloadHolds | specivo/mcp/session_store.py:123-131 | the hash holds every value that is not None and the two stamps, unless the caller gives its own |
| SessionStore.StampIsLastSecond | specivo/mcp/session_store.py:123-131 | a stamp reads back as the last whole second |
| SessionStore.LivesUntil | specivo/mcp/session_store.py:116-183 | over every interleaving an entry lives exactly until the expiry after the last create, get or touch; a peek never extends it |
| SessionStore.ComesFromCreate | specivo/mcp/session_store.py:116-183 | over every interleaving a live entry is exactly the payload of the create it has lived on since with the last time of use; without such a create it holds that time alone |
| SessionStore.LateTouchRecreates | specivo/mcp/session_store.py:174-183 | a touch that looked before the expiry and writes after it does make an ownerless entry |
| RateLimit.RateLimiter.Pipeline | specivo/core/rate_limit.py:79-88 | counts what is left of the window before adding the request, drops the rest, adds the request and restarts the expiry; other identifiers are untouched |
| RateLimit.RateLimiter.Check | specivo/core/rate_limit.py:77-120 | the answer and the new sorted set of a whole check with nothing in between |
| RateLimit.DecisionIsExact | specivo/core/rate_limit.py:80-97 | in every interleaving a check rejects exactly when the recent allowed requests and the recent rejected ones not yet removed reach the limit |
| RateLimit.WindowNeverExceeded | specivo/core/rate_limit.py:77-120 | in every interleaving, with rejected entries lingering at will, at most `max_requests` requests are allowed in any half-open window |
| RateLimit.SequentialMeetsRule | specivo/core/rate_limit.py:77-120 | one check after another, the answer is the rule "fewer than the limit were allowed in the last window", with the count that rule leaves; a rejected caller has nothing left and a second or more to wait; expiry never changes it |
| RateLimit.LateCheckForgets | specivo/core/rate_limit.py:87-90 | the second added to the expiry is exact: beyond it a late check forgets a request the rule counts |
| RateLimit.EqualReadingsCollide | specivo/core/rate_limit.py:88 | with a limit of two or more, any number of checks that read the same time is allowed |
| RateLimit.RetryAfterIsLeast | specivo/core/rate_limit.py:98-117 | after a sequential rejection, for every whole number of seconds k, a check k seconds later is allowed if and only if k is at least `retry_after` |
| RateLimit.NoLimitNeverAllows | specivo/core/rate_limit.py:96-117 | with a limit of zero or less every check is rejected, with `retry_after` the whole window |
| RefScanner.MessageScannerIsRegex | specivo/hooks/refs.py:47 | what the reference expression matches, the scanner finds |
| RefScanner.MessageRegexIsScanner | specivo/hooks/refs.py:47 | what the scanner finds, the reference expression matches |
| RefScanner.BranchScannerIsRegex | specivo/hooks/refs.py:68 | what the branch expression matches, the scanner finds |
| RefScanner.BranchRegexIsScanner | specivo/hooks/refs.py:68 | what the scanner finds, the branch expression matches |
| RefScanner.KeywordScannerIsRegex | specivo/hooks/refs.py:48-53 | what the keyword expression matches at the end of a gap, the scanner finds |
| RefScanner.KeywordRegexIsScanner | specivo/hooks/refs.py:48-53 | what the scanner finds, the keyword expression matches |
| RefScanner.TimeScannerIsRegex | specivo/hooks/refs.py:59-64 | what the time expression matches, the scanner finds, with the value in hundredths |
| RefScanner.TimeRegexIsScanner | specivo/hooks/refs.py:59-64 | what the scanner finds, the time expression matches, with that value |
| RefsTimes.DecimalHours | specivo/hooks/refs.py:90-96 | a decimal of one or two places is worth its digits over a power of ten, capped at 24 hours |
| RefsTimes.MinutesAreWorth | specivo/hooks/refs.py:92-97 | minutes are worth the closest hundredth of an hour, 1440 and more are worth 24 hours, and only none are worth nothing |
| RefsTimes.TimeAtMeetsSpec | specivo/hooks/refs.py:85-97 | the time read is the one the expression matches, to its end; zero is no time, and without a match nothing is read |
| RefsTimes.HoursAreRead | specivo/hooks/refs.py:59-97 | `@2h`, with blanks before it and in either case, logs so many hours, however the text goes on |
| RefsTimes.MinutesAreRead | specivo/hooks/refs.py:59-97 | the same of `@90m` |
| RefsTimes.HoursAndMinutesAreRead | specivo/hooks/refs.py:59-97 | the same of `@1h30m` |
| RefsTimes.DecimalIsRead | specivo/hooks/refs.py:59-97 | the same of `@1.5h` |
| RefsTimes.OnlyTimesAreRead | specivo/hooks/refs.py:56-64 | nothing else is read as a time: neither `@2h.5` nor `@2hours` |
| RefsVocabulary.KeywordsAre | specivo/hooks/refs.py:38-39 | the fixing words are the forms of fix, close and resolve; the others are ref, refs, references and see |
| RefsVocabulary.KeywordDecides | specivo/hooks/refs.py:48-53 | a keyword before a reference, in any case, with blanks, a colon and a line end or without, decides whether it fixes, whatever came before |
| RefsVocabulary.NoKeywordDecides | specivo/hooks/refs.py:104-111 | where no keyword stands so, a reference takes the keyword before it through a list separator and is `refs` otherwise |
| RefsVocabulary.ListSeparators | specivo/hooks/refs.py:55 | blanks, commas, ampersands and `and` among them separate |
| RefsVocabulary.SeparatorsHoldNothingElse | specivo/hooks/refs.py:55 | every character of a separator is one of these or a letter of an `and` that stands by itself |
| RefsVocabulary.ReferenceIsRead | specivo/hooks/refs.py:43-47 | spelled out character by character: a key of capitals and digits, a dash and one to nine digits are read wherever they stand, with or without a hash sign, if no character that glues stands before or after |
| RefsVocabulary.OnlyReferencesAreRead | specivo/hooks/refs.py:43-47 | nothing else is read as a reference |
| RefsMatches.MentionsAreMatches | specivo/hooks/refs.py:128-138 | the mentions are exactly the in-scope places where the expression matches, none skipped |
| RefsMatches.BranchMeetsSpec | specivo/hooks/refs.py:146-156 | the result of `extract_branch_refs` for every branch and scope: a plain reference exactly for each key in scope with a positive number that stands there as a token of its own, in either case |
| RefsMatches.BranchInOrder | specivo/hooks/refs.py:146-156 | in order of first mention, each once, and no two mentions overlap |
| Ascii.CasesPair | specivo/hooks/refs.py:152 | letters are paired with their other case, and everything else stays |
| Refs.Dedupe | specivo/hooks/refs.py:114-125 | the dict loop gives the order-preserving merge of the references |
| Refs.ExtractRefs | specivo/hooks/refs.py:128-143 | the loop over matches, with its previous keyword and last end, gives the merge of the references of the in-scope mentions |
| Refs.ExtractBranchRefs | specivo/hooks/refs.py:146-156 | the same for a branch name, whose keys are read in either case |
| RefsSpec.NoReferenceInTime | specivo/hooks/refs.py:85-97 | no reference starts inside a logged time, so gaps never run backwards |
| RefsSpec.MentionsInOrder | specivo/hooks/refs.py:128-143 | mentions, with their times, follow one another without overlap |
| RefsSpec.SeparatorHasNoKeyword | specivo/hooks/refs.py:105-111 | a list separator never ends in a keyword, so the two branches of the keyword rule exclude each other |
| RefsSpec.FoundMeetsSpec | specivo/hooks/refs.py:105-143 | a mention fixes exactly when the nearest gap at or before it that is not a list separator ends in a fixing word |
| RefsSpec.DistinctKeysInOrder | specivo/hooks/refs.py:114-125 | each issue is listed once, in order of first mention |
| RefsSpec.MergedMeetsSpec | specivo/hooks/refs.py:114-125 | one reference per issue, in order of first mention; it fixes if any does, and has the first time |
| RefsSpec.ExtractMeetsSpec | specivo/hooks/refs.py:105-143 | the result of `extract_refs` for every text and scope: the issues in order of first in-scope mention, `fixes` if and only if some mention fixes, the first time written |
| RefsScope.DisplayKeyIsInjective | specivo/hooks/refs.py:80-82 | a display key names one key and one number |
| RefsScope.SmallerScopeFilters | specivo/hooks/refs.py:128-143 | a smaller scope yields exactly the same issues filtered, in the same order, with the same times |
| RefsScope.SmallerScopeOnlyLosesFixes | specivo/hooks/refs.py:105-143 | a reference that fixes in the smaller scope fixes in the larger one |
| RefsScopeExact.SmallerScopeFixesIff | specivo/hooks/refs.py:105-143 | a reference fixes in the smaller scope if and only if some mention of its issue takes a fixing word from a gap at or before it, through list separators and mentions of the smaller scope alone |
| RefsScopeExact.SameFixes | specivo/hooks/refs.py:105-111 | the same, mention by mention |
| RefsScopeExact.OutOfScopeBreaksTheList | specivo/hooks/refs.py:105-143 | in `Fixes A-1, B-2, A-3` all fix with scope {A, B}, and A-3 does not with scope {A} |
| RefsScopeExact.FixingGapWhole | specivo/hooks/refs.py:48-53 | a keyword right after a mention's text is one in the longer gap too, since no word character follows a mention |
| RefsRoundTrip.NoRoundingTie | specivo/hooks/refs.py:92-96 | a number of minutes is never half-way between two hundredths of an hour |
| RefsRoundTrip.MinutesAreHours | specivo/hooks/refs.py:92-97 | 1 to 1440 minutes become more than 0 and at most 24 hours, the strictly closest hundredth |
| RefsRoundTrip.PrintThenExtract | specivo/hooks/refs.py:47-143 | printing any list of distinct in-scope references after "Fixes", with or without `#` and minutes, and extracting it is the identity, when no separator glues itself to a reference |
| RefsGlue.PrintThenExtractIff | specivo/hooks/refs.py:47-143 | for any list separators between them, printing and extracting distinct references is the identity if and only if no separator is empty, or starts or ends in a word character |
| RefsGlue.GluedByAnd | specivo/hooks/refs.py:47-55 | `Fixes A-1andA-2` loses references, although `and` is a list separator |
| RefsGlue.MergedIsNoLonger | specivo/hooks/refs.py:114-125 | merging never lengthens a list, and keeps its length only when it changes nothing |
| PullRequests.PullRequestLinks | specivo/hooks/pull_requests.py:36-51 | the nested loops over the dict give the first links of the merge of title, body and branch |
| PullRequests.LinksMeetSpec | specivo/hooks/pull_requests.py:36-51 | the first 20 distinct issues of title, body and branch, each from the first of those that names it, closing if and only if title or body fixes it |
| RefsMatches.BranchNeverFixes | specivo/hooks/refs.py:146-156 | a branch name never fixes and never logs time |
| PullRequests.NeverGoesBack | specivo/hooks/pull_requests.py:64-86 | over every delivery sequence a merge is never left and the stored time never goes back |
| PullRequests.EndsAtGreatestIff | specivo/hooks/pull_requests.py:64-86 | for timed events in any order with any redeliveries: the end is the greatest time, merged exactly if some event is, if and only if no event is newer than every merged one |
| PullRequests.RunStands | specivo/hooks/pull_requests.py:64-86 | which event stands after any delivery, with times or without: the last with the greatest time, or, once a merge no older than everything before it has come, the last with the greatest time among the merges from there on |
| PullRequests.LaterOpenIsIgnored | specivo/hooks/pull_requests.py:64-86 | merged at 5 then open at 10 stays at 5 |
| PullRequests.OrderDoesNotMatter | specivo/hooks/pull_requests.py:64-86 | under that condition, sequences of the same events end at the same time and agree on the merge |
| CommentOpeners.KeepIsEndOfLastCloser | alembic/versions/0040_fts_linear_comment_openers.py:45-47 | the reversed search finds the end of the last closer |
| CommentOpeners.RewriteBlanks | alembic/versions/0040_fts_linear_comment_openers.py:37-51 | the length is kept, and a position changes exactly when an opener after the last closer starts there |
| CommentOpeners.OccurrencesAfterBlanking | alembic/versions/0040_fts_linear_comment_openers.py:17-22 | closers are untouched, exactly the openers before the split remain, and none straddles it |
| CommentOpeners.RewriteKeepsMeaning | alembic/versions/0040_fts_linear_comment_openers.py:17-22 | the comment-skipping parser reads the same pieces from the rewritten text, for every text |
| CommentOpeners.OnlyUnclosedReplaced | alembic/versions/0040_fts_linear_comment_openers.py:18-20 | every replaced character is the `<` of an opener with no closer after it |
| CommentOpeners.AtMostOneUnclosed | alembic/versions/0040_fts_linear_comment_openers.py:20-22 | at most one opener of the output is unclosed, and it overlaps the last closer |
| CommentOpeners.UnclosedIff | alembic/versions/0040_fts_linear_comment_openers.py:20-22 | an opener of the output is unclosed if and only if it was an opener that starts less than seven characters before the end of the last closer |
| CommentOpeners.OverlappingOpenersStay | alembic/versions/0040_fts_linear_comment_openers.py:20-22 | `<!-->` and `<!--->` are left with their opener unclosed |
| CommentOpeners.RewriteIsLinear | alembic/versions/0040_fts_linear_comment_openers.py:20-22 | the characters the parser reads on the output, look-ahead included, are at most twice the text |
| CommentOpeners.OpenersAreQuadratic | alembic/versions/0040_fts_linear_comment_openers.py:7-13 | without the rewrite, n openers cost quadratically many characters |
| CommentOpeners.RewriteIsIdempotent | alembic/versions/0040_fts_linear_comment_openers.py:37-51 | rewriting twice is rewriting once |
| NaturalSort.SplitAlternates | specivo/core/natural_sort.py:23-25 | text and digit runs alternate and concatenate back to the folded name |
| NaturalSort.SplitIsUnique | specivo/core/natural_sort.py:33 | that is the only alternating reading of a text |
| NaturalSort.KindsAlternate | specivo/core/natural_sort.py:23-25 | text at even positions, numbers at odd ones, so a string is never compared with an integer |
| NaturalSort.NamesAreTotallyOrdered | specivo/core/natural_sort.py:30-35 | the order is a strict total order on all names |
| NaturalSort.PrefixSortsFirst | specivo/core/natural_sort.py:27-29 | a proper prefix sorts strictly before every extension |
| NaturalSort.NumbersCompareByValue | specivo/core/natural_sort.py:22 | keys that agree and then hold a digit run each compare by the runs' values, and by what follows when those are equal |
| NaturalSort.NamesCompareByNumber | specivo/core/natural_sort.py:19-35 | names that agree up to case and then hold different numbers sort by those numbers |
| NaturalSort.NamesCompareByLetter | specivo/core/natural_sort.py:21-35 | names that agree up to case before a place sort by the folded characters there, whatever runs precede it, and a number there sorts first |
| NaturalSort.EqualPartsCompareByCharacter | specivo/core/natural_sort.py:29-35 | names with equal parts sort by the first character in which they differ |
| Tokens.Blocklist.BlocklistToken | specivo/core/security.py:78-91 | the key lives for the time given; a time that is not positive writes nothing |
| Tokens.Blocklist.BlocklistAccessToken | specivo/core/security.py:94-111 | an unexpired token's id is blocked for the whole seconds left and one more |
| Tokens.Blocklist.MarkSessionsRevoked | specivo/core/security.py:132-156 | every session named gets a marker of one token lifetime and a second; nothing else changes |
| Tokens.Blocklist.IsAccessTokenRevoked | specivo/core/security.py:159-179 | true exactly when the token's id or its session has a live marker |
| Tokens.LogoutCovers | specivo/core/security.py:107-111 | a blocklist key outlives its token despite truncation, however late it is written |
| Tokens.LogoutLasts | specivo/core/security.py:107-111 | a blocklist key is found until its token expires, and is gone a second and the time its writing took later |
| Tokens.TruncationNeedsTheSecond | specivo/core/security.py:110-111 | without the extra second the key would end before the token |
| Tokens.MarkCovers | specivo/core/security.py:132-145 | a session's marker outlives every token of the session |
| Tokens.MarkLasts | specivo/core/security.py:132-156 | a marker is found for one token lifetime and a second, and no longer |
| Tokens.NewTokenIsClean | specivo/services/auth_service.py:470-492 | no session that was revoked gets another token, and no marker hits a new one |
| Tokens.AcceptedExactly | specivo/core/security.py:78-179 | in every run of logins, renewals, revocations and logouts a token is accepted exactly while it is unexpired and neither its session was marked nor it was blocklisted |
| Tokens.KeysAreExact | specivo/core/security.py:114-179 | the blocklist key alone tells whether an unexpired token was blocklisted, the session's marker alone whether the session was marked |
| Tokens.NothingToLookUp | specivo/core/security.py:166-172 | without an id and a session, or with empty ones, nothing is found |
| Tokens.LifetimeOf | specivo/services/auth_service.py:87-92 | a token lasts its minutes, less the fraction of a second cut off |
| Tokens.NewTokenIsAccepted | specivo/services/auth_service.py:470-545 | in every run the token of a login, and of every renewal of an open session, is accepted at once |
| Tokens.LostMarkerEndsInTime | specivo/core/security.py:132-142 | when the marker is lost, acceptance still ends within one token lifetime of the revocation |
| ClientIp.SplitOfJoined | specivo/core/client_ip.py:84-93 | splitting the joined header lines is joining what each line splits into |
| ClientIp.ProxyAddsLast | specivo/core/client_ip.py:3-6 | however a proxy adds its entry (own line, last line, all lines made one), it ends up last |
| ClientIp.ClientCannotChoose | specivo/core/client_ip.py:68-93 | whatever the client sent, once the trusted proxies have each added their entry, the address is the one the outermost of them recorded |
| ClientIp.FirstProxyIsChosenIff | specivo/core/client_ip.py:26-28 | whatever the client sent, behind at most as many proxies as configured the entry of the first proxy is chosen if and only if the client wrote none or no proxy was skipped |
| ClientIp.SkippedProxiesLetClientChoose | specivo/core/client_ip.py:26-28 | behind one proxy where two or more are configured, a client's own entry is the one chosen |
| ClientIp.UntrustedPeerIsTheClient | specivo/core/client_ip.py:75-82 | from a peer that is not trusted headers count for nothing |
| ClientIp.PortIsRemoved | specivo/core/client_ip.py:52-58 | a port is removed from an IPv4 entry |
| ClientIp.BracketsAreRemoved | specivo/core/client_ip.py:52-56 | brackets and a port are removed from an IPv6 entry |
| ClientIp.BracketsAloneAreRemoved | specivo/core/client_ip.py:52-56 | brackets without a port are removed too |
| ClientIp.PlainHostIsRead | specivo/core/client_ip.py:52-60 | an entry without a port or brackets, IPv4 or bare IPv6, is read as it stands |
| ClientIp.OnlyBlanksAreStripped | specivo/core/client_ip.py:79 | stripping removes blanks at both ends, all of them, and nothing else |
| ClientIp.SplitCutsAtCommas | specivo/core/client_ip.py:79 | splitting cuts at the commas and nowhere else |
| Backfill.Run.SyncSource | specivo/cli/backfill_embeddings.py:115-128 | what loading gives replaces the row, and nothing or no chunks removes it; the chunk count and the removal are reported |
| Backfill.Run.Visit | specivo/cli/backfill_embeddings.py:197-225 | one visit: a failure leaves the index alone and is counted, an embedding failure keeps the chunks |
| Backfill.Run.BackfillKind | specivo/cli/backfill_embeddings.py:178-226 | the paged loop over an index it changes ends, and visits what one ascending query at the start would have listed |
| Backfill.Run.BackfillAll | specivo/cli/backfill_embeddings.py:178-226 | the whole run is the visits of the schedule computed at the start |
| Backfill.EachVisitedOnce | specivo/cli/backfill_embeddings.py:100-112 | exactly the candidates above zero are visited, each once, kind by kind in ascending order |
| Backfill.IndexAgrees | specivo/cli/backfill_embeddings.py:115-128 | afterwards an id above zero that did not fail has a row exactly when loading it gives chunks, however many, and the row holds what loading gives; all else is unchanged |
| Backfill.RowsAreContent | specivo/cli/backfill_embeddings.py:100-128 | said of the tables: an item that did not fail has a row exactly when it is there and reading it gives chunks, and for a comment when it says something |
| Backfill.RunReportCounts | specivo/cli/backfill_embeddings.py:81-97 | the counters are the numbers of sources removed, chunked and failed, the chunks counted are those that stand in the index afterwards, the chunks embedded are those of the sources chunked, and the exit code is 1 exactly when one failed and else 0 |
| Backfill.EmbeddedAreCounted | specivo/cli/backfill_embeddings.py:213-225 | every chunk embedded is counted, and none without a usable model |
| Backfill.SecondRunChangesNothing | specivo/cli/backfill_embeddings.py:115-128 | after a run without failing sources a second run removes nothing and leaves the index as it is |

## Left out

- Unicode: case folding and digits are ASCII; `\w` and `\b` see ASCII word characters.
- `Decimal` context precision: hours are exact rationals, rounded half-up to hundredths.
- Redis outages in the limiter and the session store: they allow the request or fall through. In the session protocol failing lookups and lost writes are steps; in `Tokens` a lost marker is.
- `is_token_blocked` and `is_access_token_revoked` on an unreachable Redis: both deny.
- The MCP SDK's transports, streams, task groups and JSON-RPC bodies: a transport is a serial number, an id and the initialized flag.
- Termination of a session by its client: a discard at any time. The manager leaves the Redis entry, so nothing is claimed about an id never coming back.
- A write of a dead process that reaches Redis after the restart.
- `RateLimiter.Check` under a Redis error between its commands: the removal that never happens is a step of the interleaving.
- `retry_after` under interleaving: it is stated for checks that follow one another.
- PostgreSQL's text-search parser beyond comments, stemming and ranking: other characters pass through unread.
- `is_merge_event`: a plain test of two fields.
- Which pull requests are stored at all: an unmerged first event that references nothing in scope is not (`specivo/services/repository_pull_requests.py:11-16`). The event order is that of the events that reach a stored request.
- `extract_time`: the time expression it applies is modelled where `extract_refs` applies it.
- JWT signing and decoding, `access_token_session`'s other fields, API keys: a token is its id, session and expiry; float rounding of `exp - now` is ignored.
- Sessions spared when others are revoked, refresh-token rows beyond their presence, SSO re-checks.
- `ipaddress`: reading an address and testing a network are function parameters. `rate_limit_subject` is not modelled.
- Chunk loading, chunk writing with unchanged chunks kept, embeddings, progress lines and totals of the backfill: loading is a function of the database, writing replaces, embedding returns a count or fails.
- All other migrations, models, endpoints, plugins, mail and the frontend.

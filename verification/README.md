# Rome: verified models of paging, replay, readers, sessions and rules

Dafny models of seven pieces of Rome whose correctness rests on whole runs rather than on single
calls, with proofs of what those runs keep.

| file | what it models |
|---|---|
| `Text.dfy`, `CodePoints.dfy`, `PercentEncoding.dfy`, `Decimal.dfy`, `CursorParts.dfy` | UTF-16 strings and their order, code points and theirs, `encodeURIComponent` and its inverse, decimal numbers, "\|"-separated cursor text |
| `Messages.dfy` | the message order and its cursor |
| `AccountDirectory.dfy`, `DirectoryOrder.dfy`, `DirectorySearch.dfy`, `DirectoryPaging.dfy`, `DirectoryRuns.dfy` | the account directory: search, order, one page, and runs of requests over a directory that may change in between |
| `Replay.dfy`, `ReplayTimeline.dfy`, `ReplayScreen.dfy` | the replay planner, its clock, and the screen at any moment |
| `ConnectionRows.dfy`, `Connections.dfy`, `ConnectionReads.dfy`, `ConnectionRequests.dfy` | the paged reader of LinkedIn connections, against any endpoint and against a fixed list |
| `CdpSession.dfy`, `PageReady.dfy` | the request/response session over a debugging socket, and the wait for a page to settle |
| `ImportRules.dfy`, `ImportGraph.dfy` | the layer rules, the engine that applies them, and what an empty report says of import paths of any length |
| `RunServer.dfy` | the one-run-at-a-time scenario server |
| `ChaseOffers.dfy`, `OfferAccounts.dfy`, `OfferRuns.dfy` | accepting card offers in passes and batches, what one card keeps, and the command over all cards |
| `Persons.dfy` | slugs and person ids |

Pure code is modelled by functions, and code that works by updating state by methods and classes
proved equal to a function of their inputs or their old state; the properties are then lemmas
about that function. What the program only receives (an endpoint's answers, socket events, a
site's behaviour, child output) is an arbitrary parameter or event, so each property holds of
every environment.

Some results differ from what one might expect, and are stated as they are:

- Strings are compared by UTF-16 code unit, as `<` does, where message.ts:70 says by code point.
  U+1F600 comes before U+FF5E (`CodePoints.UnitOrderIsNotPointOrder`). On any two strings, lone
  surrogates included, the two comparisons agree if and only if the strings do not cross: where they
  first differ, it is not the case that the smaller unit is half of a surrogate pair and the larger is
  not (`CodePoints.ComparesByPointIff`). In well-formed text that is a surrogate against U+E000 or more.
- A directory read throws when a page must be followed by another and its last row's name or ref
  holds a lone surrogate, since `encodeURIComponent` does. `DirectoryPaging.SliceThrowsIff` gives the
  exact condition for one read, `DirectoryPaging.LoneSurrogateThrows` two accounts that meet it, and
  `DirectoryRuns.UnchangedRunExistsIff` the exact condition for following cursors to an end.
- A chain of connection reads completes exactly when its first offset is not past the end of the
  list. Past it, the true total is taken for contradicted and the same offset is handed back for ever.
- The command does not always tell of every offer it clicked. `OfferRuns.EveryClickIsReportedIff`: its
  answer tells of exactly the clicks it made, in order, if and only if the session lasts and no batch
  sent is answered unusably, or the session is lost with nothing clicked on any card reached; all of
  it read off what the sites show and answer. It fails both ways. A card's one offer is clicked and
  gets no row, with the rows of a card where nothing was clicked (`OfferAccounts.ClickWithoutRow`);
  and when the session expires after a click the command throws, dropping that card's rows and those
  of every card before it (`OfferRuns.ExpiryDropsRows`).
- Ids that cannot collide with a new person's id are said to be ignored (persons.ts:60-61), but
  `parseInt` reads a number off the front of one: with "ada" and "ada-30-b" taken the next "ada" is
  "ada-31" (`Persons.StrayReadsAsSuffix`, `Persons.StrayRaisesSuffix`). `Persons.StraysIgnoredIff`:
  leaving such ids out changes nothing if and only if the base is free or none of them leads with a
  number from the suffix on that the rest would get.
- A response whose error message is empty resolves its request instead of rejecting it
  (`CdpSession.EmptyErrorResolves`).

## Model

| member | source | states |
|---|---|---|
| `Text.LessAtDivergence` | packages/api-types/src/message.ts:84-87 | one string is before another exactly when, where they first part, it has ended or has the smaller unit |
| `Text.TrimStartDropsSpace` | packages/api-types/src/people.ts:499 | trimming a start drops white space and nothing else |
| `Text.TrimEndDropsSpace` | packages/api-types/src/people.ts:499 | and so does trimming an end |
| `Text.CompareCodePointsIsTotalOrder` | packages/api-types/src/message.ts:84-87 | zero only for equal strings, antisymmetric, transitive |
| `CodePoints.ComparesByPointIff` | packages/api-types/src/message.ts:69-87 | the comparison is the one by code point, as documented, exactly when the strings do not cross a surrogate pair with a larger single unit; equal code points only for equal strings |
| `CodePoints.WellFormedCrossing` | packages/api-types/src/message.ts:84-87 | in well-formed text the crossing is a surrogate against a unit from U+E000 on |
| `CodePoints.UnitOrderIsNotPointOrder` | packages/api-types/src/message.ts:69-87 | a pair the comparison orders against their code points |
| `PercentEncoding.EncodeThrowsIffLoneSurrogate` | packages/api-types/src/people.ts:435-437 | encoding fails exactly on a surrogate that is not half of a pair |
| `PercentEncoding.EncodePassesOnlyUnreserved` | packages/api-types/src/people.ts:435-437 | the unreserved characters, and only they, are left as they are |
| `PercentEncoding.EncodeLeavesAlone` | packages/api-types/src/people.ts:435-437 | a single unit is left as it is exactly when it is an ASCII letter, a digit or one of nine marks |
| `PercentEncoding.EncodeEscapes` | packages/api-types/src/people.ts:435-437 | any other ASCII unit becomes "%" and its two upper-case hexadecimal digits |
| `PercentEncoding.EncodeBeyondAscii` | packages/api-types/src/people.ts:435-437 | three characters through two, three and four octets, written out |
| `PercentEncoding.DecodeOverlong` | packages/api-types/src/people.ts:445-449 | octets longer than their character needs do not decode |
| `PercentEncoding.DecodeSurrogate` | packages/api-types/src/people.ts:445-449 | nor do the octets of a surrogate |
| `PercentEncoding.DecodeLowerCase` | packages/api-types/src/people.ts:445-449 | hexadecimal digits may be lower-case |
| `PercentEncoding.DecodeOfEncode` | packages/api-types/src/people.ts:435-453 | decoding an encoded text gives the text, through UTF-16, UTF-8 and percent triplets |
| `Decimal.ReadNumberOfPrint` | packages/api-types/src/message.ts:122-141 | a printed timestamp reads back as itself, negative ones included |
| `Decimal.ReadsOnlyIntegers` | packages/api-types/src/message.ts:140-141 | a text other than an optional "-" and digits is not read as an integer |
| `Decimal.ParseIntSigns` | packages/api-types/src/persons.ts:70-71 | a leading "-" negates what `parseInt` reads, a leading "+" does not |
| `Decimal.ParseIntSkipsSpace` | packages/api-types/src/persons.ts:70-71 | `parseInt` skips white space before a number |
| `Decimal.PrintReads` | packages/api-types/src/persons.ts:73 | numbers are printed in decimal, most significant digit first, after their sign |
| `Messages.CompareMessagesIsTotalOrder` | packages/api-types/src/message.ts:103-108 | a total order, zero exactly for equal timestamp, direction, source and ref; newest first, then outbound, then source and ref |
| `Messages.MessageCursorThrowsIff` | packages/api-types/src/message.ts:122-126 | a message has a cursor exactly when its source and ref hold no lone surrogate |
| `Messages.MessageCursorRoundTrip` | packages/api-types/src/message.ts:122-146 | a cursor parses to the position it was cut at, whatever source and ref contain |
| `Messages.MessageCursorReads` | packages/api-types/src/message.ts:122-126 | the cursor is the escaped timestamp, "inbound" or "outbound", source and ref, with bars between |
| `Messages.MessageCursorParsesIff` | packages/api-types/src/message.ts:128-146 | a text names a position exactly when it is four parts between bars which decode to one |
| `Messages.MessageOfPartsIff` | packages/api-types/src/message.ts:139-145 | four parts name a position exactly when they give a timestamp, one of two directions and a ref |
| `Messages.ResumeSelectsSuffix` | packages/api-types/src/message.ts:110-151 | resuming from a row's encoded cursor selects exactly the rows after it |
| `Messages.ResumeDropsTies` | packages/api-types/src/message.ts:21-29 | where positions repeat, resuming answers the rows after the last that ties with the cursor, so rows are lost exactly when the next one ties |
| `AccountDirectory.AccountPageLimitClamps` | packages/api-types/src/people.ts:226-243 | a request in range is only rounded down, one over the ceiling is lowered to 500, anything else gets 200; clamping twice is clamping once |
| `AccountDirectory.TallyStates` | packages/api-types/src/people.ts:506-507 | the tally loop counts, per state, the accounts of that state |
| `AccountDirectory.SliceAccountDirectory` | packages/api-types/src/people.ts:489-527 | the read answers, or throws, what the page function says; the lemmas below are about that function |
| `DirectoryOrder.AccountRefInjective` | packages/api-types/src/people.ts:371-379 | two accounts share a ref only if they share channel and user id, colons in the user id notwithstanding |
| `DirectoryOrder.AccountRefReads` | packages/api-types/src/people.ts:371-379 | the ref is channel, colon, user id; a bad channel throws first, then a missing user id |
| `DirectoryOrder.PositionIsNameAndRef` | packages/api-types/src/people.ts:415-417 | a position is the account's name and ref |
| `DirectoryOrder.CompareDisplayNamesIsTotalPreorder` | packages/api-types/src/people.ts:125-130 | a total preorder: before exactly when the folded name is less, or it ties and the normal form is less; tying exactly the names with one normal form |
| `DirectoryOrder.CompareAccountCursorsIsTotalPreorder` | packages/api-types/src/people.ts:427-430 | a total preorder: before exactly when the name is, or the names tie and the ref is less; tying exactly one normal form with one ref |
| `DirectoryOrder.DistinctAccountsNeverTie` | packages/api-types/src/people.ts:418-430 | the order never ties two different accounts |
| `DirectoryOrder.AccountCursorRoundTrip` | packages/api-types/src/people.ts:432-453 | a cursor exists exactly without lone surrogates, and parses back to the very same position |
| `DirectoryOrder.AccountCursorReads` | packages/api-types/src/people.ts:435-437 | the cursor is the escaped name, a bar and the escaped ref |
| `DirectoryOrder.AccountCursorParsesIff` | packages/api-types/src/people.ts:440-453 | a text names a position exactly when it is two parts around one bar that decode to it, the ref not empty |
| `DirectoryOrder.SortIsSortedPermutation` | packages/api-types/src/people.ts:512-515 | the sort orders what it is given, losing and inventing nothing |
| `DirectoryOrder.SortIsStable` | packages/api-types/src/people.ts:512-515 | accounts the order ties keep the producer's order |
| `DirectoryOrder.ListingIsScopeInOrder` | packages/api-types/src/people.ts:476-517 | the listing holds exactly what query, channel and state admit, in strict order: nobody is held back |
| `DirectoryOrder.ListingHoldsWhatIsAskedFor` | packages/api-types/src/people.ts:489-516 | in any directory the listing holds exactly its accounts on the channel asked for, in the state asked for, and matching the query, unless each is absent, empty or blank; the channel's name is searched only where none is fixed |
| `DirectoryOrder.ListingIgnoresProducerOrder` | packages/api-types/src/people.ts:475-477 | two directories that admit the same accounts have one listing and one set of counts |
| `DirectoryOrder.CountsAreListingSizes` | packages/api-types/src/people.ts:336-359 | a state's count on any page is the length of the listing narrowed to that state |
| `DirectoryOrder.CountsByName` | packages/api-types/src/people.ts:506-507 | each of the three counts stands under its own state |
| `DirectorySearch.QueryFindsAdjacentFields` | packages/api-types/src/people.ts:142-146 | where folding works field by field, a query matches exactly the rows that hold it, folded, across at most one more adjacent field than it has spaces |
| `DirectorySearch.OneWordQueryFindsFields` | packages/api-types/src/people.ts:388-399 | so a one-word query matches exactly the rows with the word, folded, in a single searchable field |
| `DirectoryPaging.SliceThrowsIff` | packages/api-types/src/people.ts:489-527 | when a read throws: an admitted account without a ref, or a next page whose cursor cannot be encoded |
| `DirectoryPaging.SliceThrowsTheFirst` | packages/api-types/src/people.ts:512-513 | of the admitted accounts without a ref, the first decides the error |
| `DirectoryPaging.LoneSurrogateThrows` | packages/api-types/src/people.ts:435-437 | two distinct nameable accounts whose first page throws instead of answering |
| `DirectoryPaging.PageFacts` | packages/api-types/src/people.ts:516-527 | a page is in scope, in order and past the cursor; its own cursor parses to its last row; whatever it omits comes after that row |
| `DirectoryPaging.PageHoldsWhatIsAskedFor` | packages/api-types/src/people.ts:489-527 | in any directory a page holds only accounts of it that the request asks for |
| `DirectoryPaging.PageIgnoresProducerOrder` | packages/api-types/src/people.ts:475-477 | and answer every request with the same page |
| `DirectoryPaging.EveryPageMakesProgress` | packages/api-types/src/people.ts:517-524 | every page with a cursor leaves strictly less behind it, in any directory |
| `DirectoryRuns.CursorsIncrease` | packages/api-types/src/people.ts:401-430 | over any run, however the directory changes, cursors strictly increase |
| `DirectoryRuns.RowsStrictlyIncrease` | packages/api-types/src/people.ts:401-459 | over any run rows come in strictly increasing order, so none is repeated |
| `DirectoryRuns.EveryStayingAccountIsAnsweredOnce` | packages/api-types/src/people.ts:401-527 | a run that ends answers, exactly once, every place that stayed in scope throughout |
| `DirectoryRuns.PlaceIsAnsweredIff` | packages/api-types/src/people.ts:401-459 | over a changing directory, a read answers a place exactly when it holds it in scope past its own cursor and not past the one it hands over |
| `DirectoryRuns.RowsAreInScope` | packages/api-types/src/people.ts:489-527 | every row answered was in scope when it was answered |
| `DirectoryRuns.RowsAreAskedFor` | packages/api-types/src/people.ts:489-527 | every row of a run is an account of its snapshot on the channel, in the state and by the query asked for |
| `DirectoryRuns.UnchangedRunReadsTheListing` | packages/api-types/src/people.ts:472-527 | over an unchanged directory the pages concatenate to the listing, in max(1, ceil(n/limit)) pages with the same counts |
| `DirectoryRuns.UnchangedRunExistsIff` | packages/api-types/src/people.ts:517-524 | following cursors through an unchanged directory reaches an end exactly when every admitted account can be named and the name and ref of each row numbered by a multiple of the limit, with more to follow, can be encoded |
| `Replay.NormalizedSettingsAreInLimits` | packages/channel-test-ui/src/replay.ts:47-70 | whatever the input, each number comes out as the nearest in its range or as its default, so settings are in range; settings in range are exactly those left alone |
| `Replay.LimitsAndDefaults` | packages/channel-test-ui/src/replay.ts:28-44 | the ranges and the defaults, number by number |
| `Replay.CommonPrefixLength` | packages/channel-test-ui/src/replay.ts:174-178 | the loop finds the longest prefix two texts share |
| `Replay.MeasureChanges` | packages/channel-test-ui/src/replay.ts:102-119 | the first pass's maps hold each message's latest text and typed characters |
| `Replay.PlanReplay` | packages/channel-test-ui/src/replay.ts:101-135 | the two passes give the plan the lemmas below are about |
| `Replay.ReplayAt` | packages/channel-test-ui/src/replay.ts:146-163 | the early-exit loop shows the beats before the first that has not started |
| `ReplayTimeline.BeatsAreOrdered` | packages/channel-test-ui/src/replay.ts:121-135 | beats never end before they start, and the next starts only once the one before has ended |
| `ReplayTimeline.GapsAreDelays` | packages/channel-test-ui/src/replay.ts:124-172 | the first beat starts at 0; every other starts the edit delay after the one before ends when an earlier change has its message, and the message delay after when none has |
| `ReplayTimeline.DurationIsTypingPlusDelays` | packages/channel-test-ui/src/replay.ts:121-135 | the duration is all typing time, plus the message delay for each message but the first and the edit delay for each edit |
| `ReplayTimeline.CreateIsFirst` | packages/channel-test-ui/src/replay.ts:105-118 | beats keep the recorded order, and create a message exactly at its first change |
| `ReplayTimeline.KeepsSharedPrefix` | packages/channel-test-ui/src/replay.ts:105-110 | a beat keeps the longest start its text shares with the latest earlier text of its message, and nothing where there is none |
| `ReplayTimeline.TypingBudgetIsExact` | packages/channel-test-ui/src/replay.ts:97-135 | for any settings, over all its beats a message takes exactly the lesser of its time at the set speed and the cap, the cap when no speed is set, and nothing when the cap is zero or nothing is typed |
| `ReplayTimeline.BeatTypesIff` | packages/channel-test-ui/src/replay.ts:109-130 | a beat takes time exactly when typing is on for its sender, has time, and has new text |
| `ReplayScreen.ScreenReads` | packages/channel-test-ui/src/replay.ts:145-163 | the screen shows each message once, as its latest started beat has it, in order of first appearance |
| `ReplayScreen.BeatAtIsLastStarted` | packages/channel-test-ui/src/replay.ts:166-168 | the full filter of `beatAt` agrees with the early exit of `replayAt` |
| `ReplayScreen.OnlyCurrentBeatTypes` | packages/channel-test-ui/src/replay.ts:146-168 | a message is typing exactly when it is the one `beatAt` names and that beat has not ended |
| `ReplayScreen.AtMostOneTyping` | packages/channel-test-ui/src/replay.ts:146-163 | at most one message is typing at any moment |
| `ReplayScreen.ReplayConverges` | packages/channel-test-ui/src/replay.ts:145-163 | from the duration on the screen is the recorded conversation, nothing typing |
| `ReplayScreen.ShownDuringBeat` | packages/channel-test-ui/src/replay.ts:96-98 | during a beat the text is a prefix of the new one, at least the kept length, agreeing with the old one there |
| `ReplayScreen.ShownIsItsShare` | packages/channel-test-ui/src/replay.ts:150-160 | while a beat types, what shows past the kept text is the whole part of its share of the time; from its end on, all of the text |
| `ReplayScreen.TextOnlyGrows` | packages/channel-test-ui/src/replay.ts:96-163 | when edits only extend a message, later text always extends earlier text |
| `Connections.AbsorbPage` | opencli-plugins/linkedin/connections.js:191-199 | the entry loop: skips ids in hand, stops at the limit, throws on a malformed entry |
| `Connections.CollectConnections` | opencli-plugins/linkedin/connections.js:147-221 | the read loop gives the read the lemmas below are about, within its request budget |
| `ConnectionReads.AbsorbIsSound` | opencli-plugins/linkedin/connections.js:187-200 | a page adds distinct rows from its own entries, keeps every entry it consumed, and stops early only at the limit |
| `ConnectionReads.ReadIsSound` | opencli-plugins/linkedin/connections.js:135-146 | whatever is answered: distinct rows within the limit, a total absent or not below them, complete exactly when it equals them and exactly when there is no next offset |
| `ConnectionReads.CoverageIsExact` | opencli-plugins/linkedin/connections.js:138-143 | what each coverage means, exactly: partial is an empty page short of the total, or a spent budget with neither limit nor total reached; exhausted is an empty page with no total |
| `ConnectionReads.ReadStaysInBudget` | opencli-plugins/linkedin/connections.js:157-163 | at most 2*ceil(limit/40)+2 requests of 1 to 40 entries, and a spent budget reads as partial |
| `ConnectionRequests.ReadAsksRightly` | opencli-plugins/linkedin/connections.js:161-163 | every request starts where the entries answered so far leave off and asks for what is missing to the limit, at most 40; a read short of its limit hands over the offset past every entry |
| `ConnectionRequests.LimitStopsAfterLastRow` | opencli-plugins/linkedin/connections.js:192-200 | a read at its limit has come to the offset right after the entry that gave its last row |
| `ConnectionRequests.BadAnswerThrows` | opencli-plugins/linkedin/connections.js:170-187 | an unusable answer ends the read with the failure of its kind |
| `ConnectionReads.TotalIsNewestUnlessContradicted` | opencli-plugins/linkedin/connections.js:152-211 | a read returns the newest total reported, unless after some request the newest one so far was below the connections in hand; then it returns none and is not complete |
| `ConnectionReads.ContradictionIsFinal` | opencli-plugins/linkedin/connections.js:152-155 | once contradicted, a read ends with no total and not complete |
| `ConnectionReads.ReadOfFixedList` | opencli-plugins/linkedin/connections.js:147-221 | from a fixed list in short pages a read returns its next stretch, complete exactly at the end |
| `ConnectionRequests.FullReadIsWhole` | opencli-plugins/linkedin/connections.js:157-221 | from an endpoint that answers every window in full, one read returns all there is up to the limit, complete or at the limit, in max(1, ceil(rows/40)) requests |
| `ConnectionReads.ChainReadsTheList` | opencli-plugins/linkedin/connections.js:135-146 | reads chained by next offset end complete with the list's suffix: no gap, no repeat |
| `ConnectionReads.ReadPastTheEnd` | opencli-plugins/linkedin/connections.js:202-217 | an offset past the end answers nothing and hands itself back |
| `ConnectionReads.ReadProgressesIff` | opencli-plugins/linkedin/connections.js:147-221 | a read completes or moves on exactly when its offset is within the list |
| `ConnectionRows.MapsIff` | opencli-plugins/linkedin/connections.js:92-125 | an element maps to a row, under its cleaned identifier, exactly when that is stable and can be encoded and no field has the wrong type |
| `ConnectionRows.MapsOrSaysWhy` | opencli-plugins/linkedin/connections.js:92-125 | an element that does not map is malformed, unless all that is wrong is an identifier that cannot be encoded |
| `ConnectionRows.UnstableUnits` | opencli-plugins/linkedin/connections.js:108-112 | an identifier may hold no white space, "/", "?" or "#" |
| `ConnectionRows.CleanTextKeepsRuns` | opencli-plugins/linkedin/linkedin-helpers.mjs:5-12 | cleaning a text keeps its runs of non-space as they are |
| `ConnectionRows.CleanTextIsSingleSpaced` | opencli-plugins/linkedin/linkedin-helpers.mjs:5-12 | with single plain spaces between |
| `ConnectionRows.CleanTextIsTrimmed` | opencli-plugins/linkedin/linkedin-helpers.mjs:5-12 | and none before or after |
| `ConnectionReads.ReadRowsAreAddressable` | opencli-plugins/linkedin/connections.js:100-125 | every row of a read comes from its own element and has a stable identifier that can stand in an address |
| `CdpSession.CdpSession.Send` | packages/app-runtime-sdk/src/browser.ts:257-290 | refuses when closed, otherwise issues the next id and leaves it pending unless its payload cannot be rendered |
| `CdpSession.CdpSession.HandleMessage` | packages/app-runtime-sdk/src/browser.ts:323-348 | a response settles the pending request with its id; anything else changes nothing |
| `CdpSession.CdpSession.RejectPending` | packages/app-runtime-sdk/src/browser.ts:350-355 | the loop rejects every pending request once, in order |
| `CdpSession.CdpSession.OnSocketClose` | packages/app-runtime-sdk/src/browser.ts:234-237 | closes the session and rejects everything pending |
| `CdpSession.RunAccounts` | packages/app-runtime-sdk/src/browser.ts:219-356 | over any run each promise settles at most once, and issued ids are the disjoint union of pending, settled and never sent |
| `CdpSession.SettledByOwnEvent` | packages/app-runtime-sdk/src/browser.ts:268-355 | every settlement goes back to an event that explains it, a result only to a response with its own id, delivered while it was pending |
| `CdpSession.ResponseSettlesItsRequest` | packages/app-runtime-sdk/src/browser.ts:335-347 | in any reachable state a response takes its request, and no other, out of the pending ones |
| `CdpSession.SendIssuesNextId` | packages/app-runtime-sdk/src/browser.ts:257-290 | ids count up from 1; a closed session issues none, and an unrenderable payload uses one up |
| `CdpSession.WriteFailureRejects` | packages/app-runtime-sdk/src/browser.ts:275-286 | a failed write rejects its own request with its error, and changes nothing when that is settled already |
| `CdpSession.SocketFailureRejectsAll` | packages/app-runtime-sdk/src/browser.ts:238-242 | a socket error rejects everything pending, in order, with that error, and leaves the session open or closed as it was |
| `CdpSession.SocketCloseRejectsAll` | packages/app-runtime-sdk/src/browser.ts:234-237 | the socket's close rejects everything pending, in order, and closes the session |
| `CdpSession.OtherMessagesAreIgnored` | packages/app-runtime-sdk/src/browser.ts:323-338 | text that is no response to a pending request changes nothing |
| `CdpSession.NothingPendingAfterClose` | packages/app-runtime-sdk/src/browser.ts:234-237 | after the socket closes every sent request is settled and no event makes another |
| `CdpSession.NothingIssuedOnceClosed` | packages/app-runtime-sdk/src/browser.ts:257-263 | once closed by either end no id is issued and nothing becomes pending, over any further events |
| `CdpSession.CloseRefusesOnlyLaterRequests` | packages/app-runtime-sdk/src/browser.ts:311-321 | `close()` leaves requests in flight pending until they settle, and every later request is refused |
| `CdpSession.EmptyErrorResolves` | packages/app-runtime-sdk/src/browser.ts:335-347 | a response with an empty error message resolves its request |
| `PageReady.WaitForPageReady` | packages/app-runtime-sdk/src/browser.ts:175-208 | the wait succeeds exactly at the first two polls in a row that find one address ready |
| `PageReady.StableIff` | packages/app-runtime-sdk/src/browser.ts:184-217 | two polls agree exactly when both found one address, not blank and not "about:blank", interactive or complete |
| `ImportRules.CheckImports` | lint/import-rules.ts:56-104 | the nested loops report what the lemmas below are about, in scan order |
| `ImportRules.PlaceOfPath` | lint/rules/layers.ts:12-19 | a path has a place when its first step is a context; its second step names the layer, name by name |
| `ImportRules.PlaceOfOneStep` | lint/rules/layers.ts:12-15 | a path of one step has no place |
| `ImportRules.PathSpecifiers` | lint/import-rules.ts:162-164 | a specifier is a path when it starts with ".", "/" or "@/" |
| `ImportRules.ReportHoldsWhatIsDue` | lint/import-rules.ts:51-104 | a report holds one entry per broken rule of each import, one entry for each path that does not resolve, and nothing else |
| `ImportRules.EmptyReportIffClean` | lint/import-rules.ts:56-104 | nothing is reported exactly when every path resolves and no rule rejects any import |
| `ImportGraph.DomainReachesOnlyDomain` | lint/rules/layers.ts:30-35 | the domain rule holds exactly when no path from a domain file leaves its context's domain |
| `ImportGraph.ApplicationReachesOnlyInward` | lint/rules/layers.ts:36-41 | given the domain rule, the application rule holds exactly when no path from a use case leaves its context's domain and application |
| `ImportGraph.AdaptersReachWiringIndirectly` | lint/rules/layers.ts:42-47 | given the domain and index rules, the infrastructure rule holds exactly when every path from an adapter first meets its context's use cases or index from a file of no layer in that context, or from outside it and then at the index |
| `ImportGraph.CyclesStayInward` | lint/rules/layers.ts:29-41 | with an empty report an import cycle through domain or application holds nothing else |
| `ImportGraph.PathsEnterThroughIndex` | lint/rules/layers.ts:48-58 | the index rule holds exactly when every path from outside a context first meets it at its index |
| `ImportGraph.LiteralsInContexts` | lint/rules/layers.ts:59-64 | the rule on literals holds exactly when no file of a context has an import it does not spell out |
| `ImportGraph.EveryInnerImportIsJudged` | lint/rules/layers.ts:59-64 | with an empty report every import made inside a context names a package or a resolved file |
| `ImportGraph.EmptyReportGuarantees` | lint/rules/layers.ts:29-65 | an empty report gives all four path guarantees at any distance |
| `RunServer.Server.StartRun` | packages/channel-test-ui/src/server.ts:57-83 | a run is refused while one is live, and otherwise starts with an empty log |
| `RunServer.Server.OnSourceChanged` | packages/channel-test-ui/src/server.ts:86-88 | a change starts a full run, or queues one behind the live run |
| `RunServer.Server.OnChildClose` | packages/channel-test-ui/src/server.ts:74-81 | a run's end starts the queued rerun at once |
| `RunServer.RunKeeps` | packages/channel-test-ui/src/server.ts:48-88 | over any events at most one child is live, the log is the last 200 pieces of the current run, and no change is lost |
| `RunServer.LogIsTheEnd` | packages/channel-test-ui/src/server.ts:69-73 | the log is the last 200 pieces of what the current run printed, or all of them |
| `RunServer.PiecesAreLines` | packages/channel-test-ui/src/server.ts:70 | a chunk's pieces are its lines without the blank ones |
| `RunServer.NonEmptyTakesEach` | packages/channel-test-ui/src/server.ts:70 | each line that is not blank is kept once, in order |
| `RunServer.PrintedByCurrentRun` | packages/channel-test-ui/src/server.ts:57-73 | a start clears what was printed, output adds to it, and a refused start changes nothing |
| `RunServer.BurstCollapsesToOneRun` | packages/channel-test-ui/src/server.ts:49-81 | any number of changes during a run, whatever output or refused requests come between them, cost exactly one more run, a full one; none cost none |
| `ChaseOffers.OfferPage.Prepare` | opencli-plugins/chase/accept-offers.js:207-276 | the tile loop leaves a fresh queue and clicks nothing |
| `ChaseOffers.OfferPage.AcceptBatch` | opencli-plugins/chase/accept-offers.js:306-362 | a batch clicks the next two offers, fewer at the end or on an expired session, with a row for each |
| `ChaseOffers.ProcessCard` | opencli-plugins/chase/accept-offers.js:413-512 | the pass and batch loops give the rows, the ending and the clicks the lemmas below are about |
| `OfferAccounts.QueueHolds` | opencli-plugins/chase/accept-offers.js:210-228 | a queue holds, once each, exactly the unprocessed offers whose first tile can be activated |
| `OfferAccounts.QueueIsInTileOrder` | opencli-plugins/chase/accept-offers.js:207-276 | offers are queued in the order their first tiles show |
| `OfferAccounts.CardIsSettled` | opencli-plugins/chase/accept-offers.js:413-512 | per card: no offer clicked twice, rows for the clicks in order but for at most the last batch, a row unless the session is gone, and nothing left to click when it closes well |
| `OfferAccounts.CardEndsAsItsFate` | opencli-plugins/chase/accept-offers.js:413-512 | on one card, among the rows gathered: every click has exactly one, in order, exactly when no batch sent is answered unusably; and the card closes exactly when the session lasts |
| `OfferAccounts.CardSaysItsStatus` | opencli-plugins/chase/accept-offers.js:423-512 | a card's rows are its offers', and after them at most one status row, given exactly by what went wrong or that there was nothing new |
| `OfferAccounts.ClickWithoutRow` | opencli-plugins/chase/accept-offers.js:461-490 | a card with one offer that is clicked and gets no row, with the rows of a card where nothing is |
| `OfferRuns.EveryCardAnswers` | opencli-plugins/chase/accept-offers.js:410-521 | a run that does not throw has at least one row for every card |
| `OfferRuns.AcceptOffers` | opencli-plugins/chase/accept-offers.js:407-521 | the loop over cards gives the rows and the clicks the lemmas are about: it stops at the first card that finds the session gone |
| `OfferRuns.AnswersIff` | opencli-plugins/chase/accept-offers.js:424-428 | the command answers exactly when no card finds the session gone or loses it |
| `OfferRuns.SessionLastsIff` | opencli-plugins/chase/accept-offers.js:413-519 | the session lasts exactly when no card's own fate is to find it gone |
| `OfferRuns.NoneFallsShortIff` | opencli-plugins/chase/accept-offers.js:463-490 | no card falls short exactly when none meets an unusable answer |
| `OfferRuns.EveryClickIsReportedIff` | opencli-plugins/chase/accept-offers.js:407-521 | the answer tells of exactly the clicks made, in order, exactly when the session lasts and no card falls short, or it is lost with nothing clicked on any card reached |
| `OfferRuns.AnswersInFullIff` | opencli-plugins/chase/accept-offers.js:407-521 | the command answers, with every click, exactly when every card closes with a row for each of its own |
| `OfferRuns.ClicksNothingIff` | opencli-plugins/chase/accept-offers.js:413-472 | a card clicks nothing exactly when its first pass does not load, shows nothing to click, or has lost its queue by the first batch |
| `OfferRuns.ExpiryDropsRows` | opencli-plugins/chase/accept-offers.js:514-519 | a session that expires after a click costs the rows of that card and of all before it |
| `Persons.SlugJoinsWords` | packages/api-types/src/persons.ts:26-43 | the passes give the name's words, reduced to letters and digits, joined by single hyphens; empty exactly when no letter or digit survives |
| `Persons.SlugIsPlain` | packages/api-types/src/persons.ts:35-43 | a slug holds only a-z, 0-9 and single inner hyphens |
| `Persons.OneUnitSlug` | packages/api-types/src/persons.ts:38-41 | letters and digits are a-z and 0-9; white space and "-" end a word |
| `Persons.SlugsAreFixpoints` | packages/api-types/src/persons.ts:26-43 | slugging leaves alone exactly the well-formed slugs, so it is idempotent |
| `Persons.GeneratePersonSlugIsIdempotent` | packages/api-types/src/persons.ts:35-43 | the whole derivation is idempotent, given that lower-casing leaves [a-z0-9-] alone |
| `Persons.NextAvailablePersonId` | packages/api-types/src/persons.ts:45-74 | the id is free, and is the base itself, or the base under the number after the greatest one taken, from 2 on |
| `Persons.NumberedReads` | packages/api-types/src/persons.ts:73 | a numbered id is the base, "-" and the number |
| `Persons.MintedIdIgnoresOrder` | packages/api-types/src/persons.ts:60-74 | the id depends only on which ids are taken |
| `Persons.StraysIgnoredIff` | packages/api-types/src/persons.ts:60-74 | ids that cannot collide are ignored exactly when the base is free or none of them leads with a number from the suffix on that the rest would get |
| `Persons.StrayReadsAsSuffix` | packages/api-types/src/persons.ts:70-71 | an id that goes on past its number cannot collide, and is read as that number |
| `Persons.StrayRaisesSuffix` | packages/api-types/src/persons.ts:60-74 | such an id, taken, raises the number of the next id |

## Left out

- Normalization form C, case folding and lower-casing: parameters, since they rest on Unicode tables; the ASCII fast path of case folding is inside that parameter.
- QueryFindsAdjacentFields: takes for granted that folding joined fields is folding each, which rests on the same tables.
- NextAvailablePersonId: suffixes are unbounded integers; the rounding of numbers from 2^53 on is not modelled.
- ReadNumberOfPrint: only integers are printed and read back; fractions and exponents are not modelled.
- MessageCursorRoundTrip: timestamps are integers; a number spelled other than as an optionally negated run of digits is left to a parameter.
- Replay times are exact reals, without floating-point rounding.
- BeatsAreOrdered: and the screen at a moment take delays that are not negative, which normalizing gives; plan, gaps, duration and typing budget take any settings.
- The HTTP route around the directory, and the transport of cursors through JSON and query strings.
- An entry's name, occupation, connection time and address; `ConnectionRows.MapConnection` keeps the id and the checks that can throw.
- The command around the connection reader: arguments, sign-in probing, the empty-result errors and the notice on standard error.
- The socket, timers and the JavaScript promise machinery under the session; a message that is JSON `null`, which throws inside the handler and changes nothing.
- CloseRefusesOnlyLaterRequests: `close()` is modelled up to asking the socket to close, not its wait for the close event.
- ImportRules: the resolver and the parser are data; a computed import outside every context is not an edge.
- Spawning that fails, the event stream to browsers, file watching and the 150 ms debounce; a source change is one settled burst.
- The page scripts that read offers out of the DOM; a tile is its id and whether it can be activated, and an activation is its outcome.
- The rest of the repository: user interfaces, other plugins, storage and configuration.

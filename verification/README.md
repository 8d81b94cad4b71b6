# A verified model of the news aggregator

This project models the parts of the aggregator whose correctness spans many steps or many functions, and proves what
they promise. Verify it with `dafny verify dfyconfig.toml`.

## What is modelled

| Part | Files |
|---|---|
| Alert delivery: reserve, send with retries, finalize, dead letters, over the `alert_events` table | `AlertProtocol`, `AlertSafety`, `AlertRuns`, `AlertReadings`, `AlertCooldown`, `AlertDeliveries`, `AlertReach`, `AlertRecovery`, `AlertLimits`, `AlertExactness`, `AlertHandlers` |
| News processor: reader, workers and batcher over two bounded channels | `Pipeline`, `PipelineSafety`, `PipelineShutdown`, `PipelineCode` |
| Texts: tag and entity stripping, sentences and summaries, alert matching and snippets | `HtmlText`, `HtmlKept`, `Sentences`, `Utf8`, `LetterCase`, `AlertMatching` |
| The URL that identifies an article | `UrlQuery`, `UrlSpelling`, `UrlNormalizer`, `UrlPrinting` |
| Collector: deduplication and circuit breaker | `Dedup`, `CircuitBreaker` |
| Schema migrations | `Migrations`, `MigrationNames` |
| Login rate limit | `RateLimiter` |
| News texts in the object store and their retention | `Paths`, `PathWalk`, `Calendar`, `NewsKeys`, `Retention` |
| The news table and its search index | `NewsTable`, `NewsAgreement`, `NewsStaleness`, `NewsRepository` |

Shared protocols are state machines: a state, the steps that are enabled in it, and what each step does. A step is one
SQL statement, one Redis command, one channel operation, one call over the network or one local computation, and any
party may run between two of them. A command may also fail without effect, or take effect and lose its reply. The
theorems hold in every reachable state or over every run. What the world does to a call (a command that fails, a reply
that is lost, the answers of a channel) is an argument of the method that meets it, so its contract says what it makes of
every such answer. Beside each state machine stand the functions of the program as
methods with their loops; every shared step they take is a step of the machine, so the theorems apply to them. Between
two such steps they allow any steps of the others, known only by contract (`OthersRun…`).

Assumptions: in the alert protocol the ids of events, rules and news are not reused; single Redis commands, SQL
statements and transactions are atomic; there is one clock that does not run backwards, and it starts at least a second
after the epoch; worker counts, batch sizes and error limits are at least 1. SHA-256 is taken as injective and UUIDs as
fresh.

## What does not hold

Some things one could expect of the program are false. The model keeps the code as it is and says when they hold.

- A rule's cooldown is not kept when reservations overlap: with k in flight, k alerts may be delivered at the same
  instant and recorded at the same second (`OverlapDefeatsCooldown`). Nor is it kept when a news item is deleted soon
  after a send about it: its row goes with it, the rule forgets the send, and the next alert goes out in the same second,
  even with one reservation at a time (`DeletionDefeatsCooldown`). Sends are therefore counted in a record that no
  deletion erases. If at most k reservations of the rule are in flight, and no news item is deleted while a send of the
  rule about it is less than the cooldown ago, a window shorter than the cooldown holds at most k recorded sends
  (`CooldownWindow`); with one at a time they are a cooldown apart (`StrictCooldown`). A deletion keeps it so exactly when
  it is late in this sense (`DeletionIsSafeIff`).
- Deliveries are not recorded sends. Their times are stored in whole seconds, so a delivery may come up to a second early
  (`TruncationSendsEarly`), and a delivery that is never recorded holds nothing back: if the finalize call fails, the
  worker stops before it, or the row is gone when it runs, the next alert may be delivered at the same instant
  (`FailedFinalizeHidesSend`, `DeletionHidesSend`). A delivery is forgotten when it is neither in flight nor in the table.
  As long as none is forgotten within the cooldown less a second, a window of that length holds at most k deliveries
  (`DeliveryWindow`), and with one reservation at a time any two are further apart (`StrictDeliveries`). With one at a
  time a step lets two deliveries come closer later if and only if it makes such a fresh one forgotten
  (`DeliveriesCrowdIff`).
- An alert can be lost: if the reply to the insert is lost, redelivery answers "duplicate" for ever
  (`AlertsMayBeLost`). A pending row can still be settled exactly when it is not abandoned (`SettledIff`): it is abandoned
  if its handler has ended early, if its finalize call has run in vain, or if the handler has let or is bound to let a
  worker send that has stopped.
- The rate limiter calls itself a window that starts with the first request (`internal/ratelimiter/limiter.go:14`). The
  code renews the expiry with every call, so a slow but steady client is locked out for good
  (`SteadyClientIsLockedOut`), and a refused client gets in again exactly after a quiet window (`RefusedUntilQuiet`).
- The backoff is the doubled and capped one exactly when doubling stays in 64 bits or wraps to something above the cap
  (`BackoffExactIff`). A base of 2^53 ns and ten deactivations close a source for good (`BackoffCanOverflow`).
- A source may be due again up to a second before its fetch interval has passed, since the time of the last collection
  is stored in whole seconds (`StateStore.DueAgain`, `CollectedEarly`); it is never early if and only if that time was a
  whole second (`NeverEarlyIff`). `internal/store/collector/redis_state.go:52` promises the interval.
- The date in a key of the object store can be read back for all texts under a prefix exactly when cleaning the prefix
  as a path changes nothing or leaves nothing (`ReadBackIff`). The keys are found by the prefix as configured exactly
  when cleaning leaves it alone and it neither starts with a slash nor ends in two (`ListedIff`). The prefix `a//b` fails
  both (`DoubledSlashFails`).
- The snippet slice is in range exactly when the occurrence in the lower-cased text starts no further than the margin
  behind the end of the original (`SliceInRangeIff`). That holds if lower-casing makes the text at most the margin longer
  (`SliceInRange`); 70 letters U+023A followed by the keyword stop the processor (`SnippetCanFail`).
- Texts are cut by bytes. A summary cut at 500 bytes may end inside a character; it is valid UTF-8 exactly when the text
  has sentences, is short enough, or a character starts at byte 500 (`SummaryIsTextIff`). 84 short sentences in a two-byte
  script, as a cleaned page holds them, give one that is not (`SummaryCanBreak`). A snippet is valid exactly when neither
  end of its slice lies inside a character (`SnippetIsTextIff`), which also fails (`SnippetCanBreak`).
- A news row whose index write failed is never indexed later (`RowsGetLost`, `LostUntilExpiry`); between calls the rows
  missing from the index are exactly those (`AgreementAtRest`).
- An index entry may carry another text than its row, even after batches without any error (`EntriesGoStale`): a call
  sleeps between its two statements until its row has expired, the item comes again, and the first call writes the entry
  last. That is the only way: a step lets an entry go stale later if and only if it deletes the row of a call that is
  between its two statements (`StaleIff`), which cannot happen while no call stays there longer than rows are kept
  (`QuickCallsNeverGoStale`).
- A finished start on an empty database has run the whole list exactly when the versions are distinct
  (`FreshStartRunsAllIff`); of two migrations with one version the second is skipped (`DuplicateVersionIsSkipped`).

## Model

| member | source | states |
|---|---|---|
| AlertSafety.StepKeeps | internal/store/alerting/repository.go:289-390 | Every step of every party keeps the protocol invariant, although the status updates carry no guard |
| AlertRuns.RunKeeps | internal/services/alertworker/service.go:90-167 | The invariant holds after every interleaving of workers, handlers, redeliveries, lost replies and crashes |
| AlertRuns.GrantIsFirst | internal/handlers/news/grpc_handler.go:152-201 | Answering "send" is the only step that grants a pair, and no pair is granted twice |
| AlertRuns.AtMostOneAnswer | internal/handlers/news/grpc_handler.go:152-201 | Along any run the reserve call answers "send" at most once for a (rule, news) pair |
| AlertRuns.AtMostOnce | internal/services/alertworker/service.go:123-156 | Per pair: at most one "send" answer, at most three attempts, at most one success, and no attempt without the answer |
| AlertRuns.StatusStep | internal/store/alerting/repository.go:348-390 | A row changes only by leaving pending, has a sent time exactly when its status is sent, and never changes once settled |
| AlertRuns.LeavesPendingOnce | internal/store/alerting/repository.go:348-390 | Over any run a row leaves pending at most once and then keeps its status and sent time |
| AlertRuns.DeadLetters | internal/services/alertworker/service.go:157-179 | An event in the dead-letter topic was tried exactly three times without success and its row says failed |
| AlertRuns.VerdictsAreTrue | internal/handlers/news/grpc_handler.go:262-288 | Sent means one successful attempt, failed means three failed ones, dropped means none; a pair has one row |
| AlertRecovery.AbandonedForever | internal/handlers/news/grpc_handler.go:203-234 | A row nobody is left to write keeps its status for ever, and its pair is never tried again |
| AlertRecovery.NotAbandonedSettles | internal/services/alertworker/service.go:123-167 | From every other position of its handler and worker some schedule takes the row out of pending |
| AlertRecovery.SettledIff | internal/services/alertworker/service.go:123-167 | A pending row can still be settled if and only if it is not abandoned |
| AlertReadings.StepTimed | internal/handlers/news/grpc_handler.go:164-200 | Every step of any kind keeps readings, flights and the times of sends in relation: the later reading counts whoever is still in flight, and sends wait the cooldown read out |
| AlertCooldown.StepSpaced | internal/handlers/news/grpc_handler.go:164-200 | Every step but the deletion of the rule keeps every recorded send in sight of the readings, if news items are deleted late |
| AlertCooldown.RecordsStay | internal/store/alerting/repository.go:363-376 | No step erases or changes the record of a send, and a rule that is gone gets no new one |
| AlertCooldown.SentRowsAreRecorded | internal/store/alerting/repository.go:363-376 | Every sent row of the table is the record of the session that owns it, with the same time |
| AlertCooldown.CloseSendsAreRivals | internal/handlers/news/grpc_handler.go:164-200 | Two sends recorded closer than the cooldown were in flight together when the later one was checked |
| AlertCooldown.CooldownWindow | internal/store/alerting/repository.go:327-376 | With at most k reservations of a rule in flight and late deletions only, a window shorter than the cooldown holds at most k recorded sends, whatever was deleted since and despite truncation to seconds |
| AlertCooldown.StrictCooldown | internal/clients/mainservice/grpc_client.go:178-209 | With one reservation at a time and late deletions only, any two recorded sends of a rule are at least the cooldown apart |
| AlertDeliveries.StepKept | internal/handlers/news/grpc_handler.go:164-200 | Where no delivery is forgotten, every step keeps all deliveries, recorded or not, in sight of the later readings |
| AlertDeliveries.DeliveryWindow | internal/services/alertworker/service.go:123-156 | With at most k reservations in flight and no fresh delivery forgotten, a window of the cooldown less a second holds at most k deliveries |
| AlertDeliveries.StrictDeliveries | internal/services/alertworker/service.go:123-156 | With one reservation at a time and no fresh delivery forgotten, any two deliveries are further apart than the cooldown less a second |
| AlertReach.FreshDelivery | internal/handlers/news/grpc_handler.go:152-201 | Whenever the cooldown of a rule does not block, a fresh alert of it can be delivered and recorded at once beside whatever else goes on |
| AlertLimits.OverlapDefeatsCooldown | internal/handlers/news/grpc_handler.go:164-200 | For every cooldown and every k there is a run with k reservations in flight that delivers k alerts at one instant and records them at one second, so the windows are exact |
| AlertLimits.TruncationSendsEarly | internal/clients/mainservice/grpc_client.go:178-209 | For every cooldown a run with one reservation at a time delivers two alerts a second less a nanosecond too close |
| AlertLimits.DeletionDefeatsCooldown | internal/store/alerting/repository.go:327-346 | For every cooldown there is a run with one reservation at a time that deletes the news item of a send and records the next send in the same second |
| AlertLimits.DeletionHidesSend | internal/store/alerting/repository.go:363-376 | For every cooldown there is a run with one reservation at a time and late deletions in which two alerts of a rule are delivered at the same instant, one of them unrecorded |
| AlertLimits.FailedFinalizeHidesSend | internal/services/alertworker/service.go:136-143 | For every cooldown there is such a run in which the finalize call just fails: the row is still there, pending |
| AlertExactness.DeletionIsSafeIff | internal/store/alerting/repository.go:327-346 | With one reservation at a time, deleting a news item lets two sends come too close later if and only if a send about it is less than the cooldown ago |
| AlertExactness.DeliveriesCrowdIff | internal/services/alertworker/service.go:123-167 | With one reservation at a time, a step lets two deliveries come too close later if and only if it makes a delivery forgotten that is fresher than the cooldown less a second |
| AlertLimits.AlertsMayBeLost | internal/handlers/news/grpc_handler.go:203-234 | There is a run after which a row stays pending in every continuation and its pair is never tried |
| AlertHandlers.OthersDoNotMoveUs | internal/services/alertworker/service.go:123-167 | Whatever others do, a handler's and a worker's own position stays, which is what their contracts rely on |
| AlertHandlers.Deployment.CreatePendingEvent | internal/store/alerting/repository.go:289-313 | Inserted, duplicate, missing news or an error: the row is there exactly if it was inserted, or an error hides that, and the handler is where the reply says; an error is a fault or a row that the table cannot take, and nothing else |
| AlertHandlers.Deployment.CreatePendingEventWithRetry | internal/handlers/news/grpc_handler.go:203-234 | At most five tries; giving up on a missing news item means that each of five inserts of the run found it missing, over 2250 ms; without a fault or a cancellation the only other error is a row that the table cannot take |
| AlertHandlers.Deployment.GetRuleCooldownSeconds | internal/store/alerting/repository.go:315-325 | The cooldown that the rule has in the table; an error exactly if the command fails or the rule is gone |
| AlertHandlers.Deployment.LastSentOf | internal/store/alerting/repository.go:327-346 | The latest sent time among the rule's sent rows, none exactly when there are no such rows |
| AlertHandlers.Deployment.GetLastSentAt | internal/store/alerting/repository.go:327-346 | The handler gets the last sent time of the rule in the table, or ends with an error exactly if the command fails |
| AlertHandlers.Deployment.ReserveAlertDelivery | internal/handlers/news/grpc_handler.go:152-201 | The answer returned is the recorded one, and "send" is the only such answer the pair gets in the run; where nothing goes wrong there is an answer unless five inserts missed the news item, the table cannot take the row, or the rule is gone |
| AlertHandlers.Deployment.MarkDroppedByCooldown | internal/store/alerting/repository.go:348-361 | On success the row is dropped and the handler answers "do not send"; on an error the row is dropped or untouched |
| AlertHandlers.Deployment.CallFinalize | internal/clients/mainservice/grpc_client.go:178-209 | The call is acknowledged exactly if it was carried out with the worker's outcome and its reply arrived; a failed delivery then leads on to the dead letter |
| AlertHandlers.Deployment.GiveUp | internal/services/alertworker/service.go:147-179 | Given up exactly if the failure was acknowledged and the dead letter written: the event is then in the dead-letter topic, and the channel refused three times |
| AlertHandlers.Deployment.HandleEvent | internal/services/alertworker/service.go:123-167 | Skipped exactly if the reserve call answered no, and then the channel is not tried; delivered exactly if it answered yes, one of at most three tries is taken, and the finalize call is acknowledged as sent; given up exactly if all three are refused, the failure is acknowledged and the dead letter written, after at least 3 s of pauses; an error takes a lost or failed call or a cancellation |
| PipelineSafety.StepKeeps | internal/services/processor/service.go:120-302 | Every step keeps conservation, order and the closing discipline |
| PipelineSafety.ConservationAndBound | internal/services/processor/service.go:177-396 | Every decoded message is in exactly one place, at most 5 per worker and one batch are unsaved, and the batches in order are the received results |
| PipelineSafety.ChannelsAreSafe | internal/services/processor/service.go:135-173 | No send on a closed channel, no second close, and everybody is done when Run returns |
| PipelineShutdown.NeverStuck | internal/services/processor/service.go:199-229 | After cancellation some step is possible until Run has returned |
| PipelineShutdown.RankStep | internal/services/processor/service.go:120-175 | A rank falls with every step except reads, skipped messages and ticks |
| PipelineShutdown.StepsAreBounded | internal/services/processor/service.go:120-175 | The steps of any run are bounded by the starting rank and the messages read |
| PipelineShutdown.CancellationEndsRun | internal/services/processor/service.go:120-175 | After cancellation, any schedule without new messages ends in the return of Run, and a run that cannot go on has returned |
| PipelineShutdown.WayToReturn | internal/services/processor/service.go:120-175 | From every reachable cancelled state Run can return without any further message |
| PipelineCode.OthersDoNotMoveUs | internal/services/processor/service.go:120-175 | A goroutine's step leaves the positions of the others alone |
| PipelineCode.Processor.ReadLoop | internal/services/processor/service.go:177-231 | The reader stops only after cancellation; what it has read it has offered or given up, except the message in its hand; it makes a step in every round unless it blocks, which takes a full channel and no cancellation |
| PipelineCode.Processor.SendTask | internal/services/processor/service.go:221-229 | A message is handed to tasks or given up on cancellation, never both; neither only if the channel is full and nothing is cancelled |
| PipelineCode.Processor.Run | internal/services/processor/service.go:120-175 | When Run returns the batcher is gone, all received results were handed to save calls, and no channel was misused; until then it has read in every round, or waits for a full channel, a worker or the batcher |
| PipelineCode.Processor.WorkerLoop | internal/services/processor/service.go:234-302 | A worker finishes only after cancellation or when tasks is closed and empty; what it has taken it has handed on or dropped, except the message in its hand; until it blocks on a full channel it takes a task in every round but those in which there was none |
| PipelineCode.Processor.SendResult | internal/services/processor/service.go:297-301 | A result is handed over or given up on cancellation, never both; neither only if the channel is full and nothing is cancelled |
| PipelineCode.Processor.SaveBatcher | internal/services/processor/service.go:357-396 | The save calls carry the received results in order, each of length 1 to the batch size; the batcher makes a step in every round but those in which nothing was ready |
| HtmlText.MatchEndIsLongest | internal/services/processor/pipeline.go:15-19 | The matcher of the three patterns finds the longest match, and none only when there is none |
| HtmlText.SpansExist | internal/services/processor/pipeline.go:22-27 | Every text has a choice of leftmost longest matches |
| HtmlText.RewriteIsReplacement | internal/services/processor/pipeline.go:22-27 | Replacing all matches is replacing exactly those |
| HtmlText.NoneAppears | internal/services/processor/pipeline.go:22-27 | A pass leaves none of its own matches and makes none of another pattern's |
| HtmlText.TrimIsStretch | internal/services/processor/pipeline.go:26-26 | Trimming keeps the stretch between the surrounding spaces |
| HtmlText.StripIsNormal | internal/services/processor/pipeline.go:22-27 | The result has no tag, no entity, only single spaces and no surrounding space |
| HtmlText.FixpointsAreNormal | internal/services/processor/pipeline.go:22-27 | The texts left alone are exactly the normal ones |
| HtmlText.StripTwice | internal/services/processor/pipeline.go:22-27 | Stripping is idempotent on every text |
| HtmlKept.StripKeepsText | internal/services/processor/pipeline.go:15-27 | Kept are exactly the characters outside tags, entities and white space, in order and as they were, with one space between two of them exactly when they were no neighbours; at the ends nothing but Unicode spaces is cut off |
| HtmlKept.InsideIsSpanned | internal/services/processor/pipeline.go:15-27 | A position is in some tag or entity exactly when every choice of leftmost longest matches covers it, so it does not matter how they are chosen |
| Sentences.SplitSentences | internal/services/processor/pipeline.go:54-79 | The loop returns the pieces trimmed, in order, without terminated ones of at most ten characters and without an empty tail |
| Sentences.PiecesEndAtEnds | internal/services/processor/pipeline.go:58-70 | The pieces end exactly at the terminators followed by a space, a line end or the end of the text |
| Sentences.SplitConserves | internal/services/processor/pipeline.go:54-79 | The raw pieces and the rest concatenate to the input; what is returned is trimmed and not empty, and every trimmed piece of more than ten characters is returned |
| Sentences.JoinedWithSpaces | internal/services/processor/pipeline.go:50-50 | Joining puts one space between neighbours and nothing else |
| Sentences.SummaryOfWhat | internal/services/processor/pipeline.go:31-51 | The content alone decides if there is one, else the description, else the title; a text without sentences is kept as it is up to 500 bytes and cut there, with an ellipsis, if it is longer |
| Sentences.SummaryIsUseful | internal/services/processor/pipeline.go:31-51 | A summary of something is never empty; it joins the first sentences, as many as asked for; without sentences it has at most 503 bytes and only dropped pieces were there |
| Sentences.SummaryIsTextIff | internal/services/processor/pipeline.go:31-51 | A summary is valid UTF-8 exactly when there are sentences, or at most 500 bytes, or byte 500 starts a character |
| Sentences.SummaryCanBreak | internal/services/processor/pipeline.go:31-51 | A cleaned page of 84 short sentences whose summary is not valid UTF-8 |
| Sentences.TruncateFits | internal/services/processor/pipeline.go:169-176 | The limit is kept, what fits is untouched, the kept part is a prefix, and an ellipsis follows it |
| Utf8.PrefixDecodes | internal/services/processor/alerting.go:93-117 | An encoded prefix is the encoding of a prefix |
| Utf8.SelfSynchronizing | internal/services/processor/alerting.go:99-99 | A byte position found by searching is a character boundary and an occurrence of the keyword |
| Utf8.ContainsAgrees | internal/services/processor/alerting.go:42-72 | Searching bytes and searching characters agree |
| Utf8.CutIsTextIff | internal/services/processor/pipeline.go:43-46 | An encoded text cut at a byte and followed by a text is valid UTF-8 exactly when the cut goes through no character |
| Utf8.SliceIsTextIff | internal/services/processor/alerting.go:116-116 | A slice of an encoded text is valid UTF-8 exactly when neither end lies inside a character |
| AlertMatching.MatchAlertEvents | internal/services/processor/alerting.go:30-91 | The i-th event has the id and user of the i-th rule that is wanted, the id, title and URL of the item, the trimmed lower-cased keyword, and the first field that mentions it; a rule is wanted exactly when that keyword is not empty and stands somewhere in the lower-cased title, summary or content |
| AlertMatching.MatchRule | internal/services/processor/alerting.go:36-88 | One event with the first field that has the keyword, none for an empty keyword or no hit |
| AlertMatching.EventsAreHits | internal/services/processor/alerting.go:30-91 | The events are those of exactly the rules that hit, in order |
| AlertMatching.HitIsWanted | internal/services/processor/alerting.go:42-72 | A rule hits exactly when its trimmed lower-cased keyword is not empty and its characters stand in a row somewhere in a lower-cased field |
| AlertMatching.FoundInTrimmed | internal/services/processor/alerting.go:93-103 | A keyword found in a field is found in its trimmed text, so the not-found branch is not taken |
| AlertMatching.SnippetShowsKeyword | internal/services/processor/alerting.go:93-117 | For a text whose widths lower-casing keeps, the slice is in range and shows a piece of the text that lower-cases to the keyword, within 126 more bytes |
| AlertMatching.SnippetIsFramed | internal/services/processor/alerting.go:93-117 | Such a snippet is the first occurrence of the keyword in the trimmed text with at most 60 bytes on each side, and dots exactly where bytes were cut off |
| AlertMatching.EventsShowTheirKeyword | internal/services/processor/alerting.go:30-117 | End to end: every event names the first field with its keyword, and if lower-casing keeps the widths of that field its snippet shows it |
| AlertMatching.SliceInRangeIff | internal/services/processor/alerting.go:104-117 | For any lower-casing, exactly when the slice bounds are valid |
| AlertMatching.SliceInRange | internal/services/processor/alerting.go:104-117 | A text that lower-casing makes at most the margin longer is always in range |
| AlertMatching.SnippetCanFail | internal/services/processor/alerting.go:104-117 | 70 letters whose lower case is a byte longer, then the keyword: a hit whose slice is out of range |
| AlertMatching.SnippetIsTextIff | internal/services/processor/alerting.go:93-117 | A snippet is valid UTF-8 exactly when neither end of its slice lies inside a character |
| AlertMatching.SnippetCanBreak | internal/services/processor/alerting.go:93-117 | 31 two-byte letters and one of one byte before the keyword: a snippet that is not |
| UrlQuery.UnescapeEscape | internal/services/collector/url_normalizer.go:28-38 | Unescaping undoes escaping, and escaped text has no separators |
| UrlQuery.ParsePrint | internal/services/collector/url_normalizer.go:28-38 | Parsing a printed query gives back the same value lists for the same keys |
| UrlQuery.PrintIsInjective | internal/services/collector/url_normalizer.go:37-38 | Different value lists print differently |
| UrlQuery.CanonicalTwice | internal/services/collector/url_normalizer.go:11-40 | A canonical query stays as it is, and a re-parse finds the same lists for all keys but the tracking ones, and none for those |
| UrlQuery.CanonicalIsComplete | internal/services/collector/url_normalizer.go:11-40 | Two queries have the same canonical form exactly when their lists agree without the tracking keys |
| UrlQuery.OrderIsUnique | internal/services/collector/url_normalizer.go:37-38 | A set of keys has one sorted order |
| UrlSpelling.UnescapeIff | internal/services/collector/url_normalizer.go:33-33 | Unescaping reads every spelling of a text and nothing else: each byte as itself, as a plus sign for a space, or as a percent sign and two hexadecimal digits of either case |
| UrlSpelling.UnescapeFailsIff | internal/services/collector/url_normalizer.go:33-33 | It fails exactly when some percent sign is not followed by two hexadecimal digits |
| UrlSpelling.SettingIsRead | internal/services/collector/url_normalizer.go:33-33 | A setting that is empty, has a semicolon or is malformed changes nothing; any other says a key and a value, the empty one without an equals sign, and appends that value to that key |
| UrlSpelling.ParseReads | internal/services/collector/url_normalizer.go:33-33 | Reading a query gives every key the values of its readable settings, in order, and drops the others |
| UrlSpelling.QueryHasSettings | internal/services/collector/url_normalizer.go:33-33 | Every query is a list of settings joined by ampersands, so that holds of all queries |
| UrlNormalizer.SortedKeys | internal/services/collector/url_normalizer.go:37-38 | The keys in sorted order, whatever order they are met in |
| UrlNormalizer.EncodeValues | internal/services/collector/url_normalizer.go:37-38 | The encoding loop prints the map |
| UrlNormalizer.DeleteTracking | internal/services/collector/url_normalizer.go:33-36 | Exactly the tracking keys are deleted; the lists of all others stay |
| UrlNormalizer.ParsedUrl.Normalize | internal/services/collector/url_normalizer.go:23-40 | The fields become the normal form of their old values |
| UrlNormalizer.NormalizedTwice | internal/services/collector/url_normalizer.go:23-40 | Normalising the parsed fields again changes nothing |
| UrlNormalizer.SameArticleIff | internal/services/collector/url_normalizer.go:23-40 | Two URLs have the same normal form exactly when they differ only in case of scheme and host, fragment, key order, escapes, malformed settings and tracking |
| UrlPrinting.PrintUrlIsInjective | internal/services/collector/url_normalizer.go:40-40 | Different parsed URLs without fragment print differently |
| UrlPrinting.OrdinaryUrl | internal/services/collector/url_normalizer.go:40-40 | A URL with scheme and host reads scheme, "://", user and "@" if there is one, host, path, and "?" before a query that is not empty |
| UrlPrinting.SameKeyIff | internal/services/collector/url_normalizer.go:23-40 | Two URLs have the same normalised text, and so the same dedup key, exactly when they differ only in those points |
| UrlPrinting.KeyIsStable | internal/services/collector/url_normalizer.go:23-40 | The normalised text, read back by any parser that inverts printing and normalised again, is itself |
| Dedup.NewOncePerWindow | internal/store/collector/dedup.go:31-47 | In a window shorter than the time to live a URL is answered new at most once, by any workers |
| Dedup.DuplicatesWereSeen | internal/store/collector/dedup.go:31-47 | What is answered duplicate was let through within the time to live before |
| Dedup.PassedPerWindow | internal/services/collector/service.go:232-251 | In such a window a URL is let through at most once, plus once per error |
| Dedup.DedupStore.IsNewURL | internal/store/collector/dedup.go:31-47 | One command on the shared store; it fails exactly if the command does, and the URL is then treated as new |
| Dedup.DedupStore.FilterDuplicates | internal/services/collector/service.go:232-251 | One check per item with a URL, in order, on its normal form, failing exactly if its command does; kept are the items without a URL and those not answered duplicate |
| Dedup.KeptIsSubsequence | internal/services/collector/service.go:232-251 | What is kept is an order-preserving subsequence of the input |
| Dedup.KeptStandAt | internal/services/collector/service.go:232-251 | Kept are exactly the items without a URL and those whose own check did not answer duplicate, in their order |
| Dedup.KeptPerWindow | internal/services/collector/service.go:232-251 | A call whose checks fall in such a window keeps a normalised URL at most once, plus once per error |
| CircuitBreaker.BackoffExactIff | internal/services/collector/service.go:293-299 | The 64-bit backoff is the doubled and capped one exactly when doubling does not wrap below the cap |
| CircuitBreaker.BackoffCanOverflow | internal/services/collector/service.go:293-299 | A base of 2^53 and ten deactivations wrap below zero, and the key never expires |
| CircuitBreaker.BackoffGrows | internal/services/collector/service.go:293-299 | For a base of at most (2^63-1)/1024 backoffs never fall, are positive and never exceed the cap |
| CircuitBreaker.StateStore.IncrementErrorCount | internal/store/collector/redis_state.go:80-86 | The counter of this source and no other |
| CircuitBreaker.StateStore.LocallyDeactivate | internal/store/collector/redis_state.go:111-120 | The expiring key and the counter of this source together |
| CircuitBreaker.StateStore.IsLocallyDeactivated | internal/store/collector/redis_state.go:100-106 | Exactly while the key lives, or an error |
| CircuitBreaker.StateStore.DueAgain | internal/store/collector/redis_state.go:52-77 | After a recorded collection a source is due exactly when the interval less the cut-off part of a second has passed: never a whole second early, always after the interval |
| CircuitBreaker.NeverEarlyIff | internal/store/collector/redis_state.go:52-77 | It is never due before its interval if and only if the collection fell on a whole second |
| CircuitBreaker.CollectedEarly | internal/store/collector/redis_state.go:52-77 | Collected at 1.9 s with an interval of one second, it is due at 2.1 s |
| CircuitBreaker.DueSources | internal/services/collector/service.go:127-155 | In order exactly the sources whose questions are answered, that have no living key, and whose interval is over if a collection is recorded; a source of which nothing is recorded is among them, and on a new store all are |
| CircuitBreaker.HandleCollectError | internal/services/collector/service.go:256-291 | The new state of the source for every combination of commands that fail, take effect without an answer, or break half done; other sources untouched |
| CircuitBreaker.NeverClosesEarly | internal/services/collector/service.go:256-291 | Over any history with any such faults, the breaker closes only at a failure that is at least the limit's since the counter was cleared |
| CircuitBreaker.HandleSuccess | internal/services/collector/service.go:193-230 | Success stores the second of the collection and clears the error counter of this source only, each command possibly failing or unanswered |
| CircuitBreaker.CountersClosedForm | internal/services/collector/service.go:256-291 | The error count is the current streak modulo the limit, the deactivation count the sum of the streaks' quotients |
| CircuitBreaker.DeactivationLasts | internal/store/collector/redis_state.go:111-120 | The j-th deactivation lasts min(base * 2^min(j, 10), cap) from its failure, in whole milliseconds |
| CircuitBreaker.RoundCloses | internal/services/collector/service.go:256-291 | After each multiple of the limit of failures in a row the breaker has just closed |
| CircuitBreaker.FailuresAreSpacedOut | internal/services/collector/service.go:137-156 | Attempt j * limit + 1 of a source that always fails comes no earlier than the first j deactivations allow |
| Migrations.SortByVersion | internal/store/migrations.go:117-120 | The same migrations in ascending order |
| Migrations.LoadMigrations | internal/store/migrations.go:74-123 | Loading succeeds exactly when every SQL file parses, and returns all of them in order |
| Migrations.SortedOrderIsUnique | internal/store/migrations.go:117-120 | With distinct versions there is one sorted list |
| MigrationNames.ParseIff | internal/store/migrations.go:87-108 | A file is read exactly when its name begins with a numeral of 64 bits, perhaps with zeros in front or a sign, and an underscore; the number is the version, the content the SQL, and the name loses ".sql" at its end |
| MigrationNames.ParsedAre | internal/store/migrations.go:77-112 | The loaded migrations are what the SQL files mean |
| Migrations.AlwaysAPrefix | internal/store/migrations.go:26-53 | Every run of several starts, stops and crashes goes from prefix to longer prefix |
| Migrations.PrefixFromEmpty | internal/store/migrations.go:139-177 | From an empty database the log is always a prefix, each migration once, the records exactly that prefix, and a finished start has them all |
| Migrations.RunnerCompletes | internal/store/migrations.go:26-53 | A start that nobody disturbs completes the list, from the creation of the table on |
| Migrations.Storage.ApplyMigration | internal/store/migrations.go:139-177 | SQL and record together or neither, and never for a recorded version; an error exactly if the transaction fails or the version is recorded |
| Migrations.Storage.RunMigrations | internal/store/migrations.go:26-53 | The log grows by a prefix of what is missing, by all of it on success, and the records follow the log; everything in front of the first failing command is applied, and without one the start succeeds |
| Migrations.ResumeRunsTheRest | internal/store/migrations.go:26-53 | On a database that holds a prefix, what is missing is the rest of the list |
| Migrations.FreshStartRunsAllIff | internal/store/migrations.go:26-53 | On an empty database, what is missing is the whole list exactly when versions are distinct |
| Migrations.DuplicateVersionIsSkipped | internal/store/migrations.go:26-53 | Of two migrations with one version only the first is run |
| RateLimiter.AtMostMaxPerWindow | internal/ratelimiter/limiter.go:51-65 | Whatever fails, an interval shorter than the window holds at most maxAttempts allowed calls of one address |
| RateLimiter.AllowedIffEarlyInBurst | internal/ratelimiter/limiter.go:51-65 | Without errors a call is allowed exactly when its position in its burst is at most maxAttempts |
| RateLimiter.RefusedUntilQuiet | internal/ratelimiter/limiter.go:51-65 | The next call after a refusal is allowed exactly when a whole window has passed |
| RateLimiter.SteadyClientIsLockedOut | internal/ratelimiter/limiter.go:14-15 | A client that calls steadily with gaps below the window is allowed exactly its first maxAttempts calls |
| RateLimiter.Limiter.constructor | internal/ratelimiter/limiter.go:22-48 | Limits that are not positive become 10 calls and 60 seconds |
| RateLimiter.Limiter.Allow | internal/ratelimiter/limiter.go:51-65 | One call added to the trace, answered as the counter after it says; an error, which is a refusal, exactly if the pipeline breaks |
| Paths.SplitJoin | internal/objectstore/s3.go:143-146 | Splitting undoes joining |
| Paths.SplitNJoin | internal/objectstore/s3.go:146-146 | The first pieces of a limited split are the first segments |
| Paths.CleanIsNormal | internal/objectstore/objectstore.go:24-27 | Cleaning an unrooted path leaves names after leading "..", nothing else |
| PathWalk.CleanIsWalk | internal/objectstore/objectstore.go:24-27 | Cleaning spells the place to which a path leads: as many ".." as it ends above its start, then the names below; above a root there is nothing |
| Calendar.DateOfDayNumber | internal/objectstore/objectstore.go:21-21 | Days and calendar dates correspond one to one |
| Calendar.DaysInClosedForm | internal/objectstore/objectstore.go:21-21 | Year y starts after 365 y days and one for each leap year before: a quarter of the years, less a hundredth, and a four-hundredth again |
| Calendar.CalendarRepeats | internal/objectstore/objectstore.go:21-21 | The calendar repeats itself after 400 years, which are 146097 days |
| Calendar.ParseFormat | internal/objectstore/s3.go:150-153 | A written date is read back exactly when its year has four digits |
| Calendar.FormatParse | internal/objectstore/s3.go:150-153 | A date has one written form |
| NewsKeys.KeyIsJoined | internal/objectstore/objectstore.go:19-28 | A key is the cleaned prefix, the date and the file name |
| NewsKeys.RoundTrip | internal/objectstore/s3.go:141-155 | For a tidy prefix the date read from a key is the UTC midnight of the instant it was built from |
| NewsKeys.UntidyPrefixFails | internal/objectstore/s3.go:141-155 | With an untidy prefix, instants of different years are not both read back |
| NewsKeys.ReadBackIff | internal/objectstore/s3.go:141-155 | All dates under a prefix are read back if and only if the prefix is tidy |
| NewsKeys.ListedIff | internal/objectstore/s3.go:84-88 | For every prefix: the keys built under it are found by it exactly when cleaning leaves it alone and it neither starts with a slash nor ends in two |
| NewsKeys.DoubledSlashFails | internal/objectstore/s3.go:84-155 | Under the prefix a//b no text is found, and of two years one is not read back |
| Retention.DeleteObjects | internal/objectstore/s3.go:110-137 | The batches cut the list into pieces of 1000, the last possibly shorter; it succeeds unless a request fails or reports errors, and on an error the count is that of the batches before the failing one |
| Retention.Bucket.DeleteObjects | internal/objectstore/s3.go:117-130 | A request that fails or reports errors may have deleted any of its keys, and no others |
| Retention.SelectOld | internal/objectstore/s3.go:93-105 | Exactly the keys with a date before the cutoff, in order |
| Retention.FiniteIff | internal/objectstore/s3.go:83-111 | The listing ends exactly when some page is not truncated or has no next one |
| Retention.ListingIs | internal/objectstore/s3.go:77-107 | The listing goes through the truncated pages to the first that is not, and fails exactly if that one does |
| Retention.GatheredAre | internal/objectstore/s3.go:93-97 | The keys listed are those of the objects on these pages |
| Retention.ListAndDeleteOld | internal/objectstore/s3.go:77-137 | Over any pagination, deletes the dated keys before the cutoff of the whole listing; a failed page deletes nothing; it succeeds exactly if the listing and all requests do |
| Retention.OldNewsIff | internal/objectstore/s3.go:77-106 | A text is before the cutoff exactly when its day is |
| Retention.OnlyOldKeysGo | internal/objectstore/s3.go:77-137 | Only dated keys before the cutoff go, whatever fails; on success all listed ones are gone |
| Retention.S3Cleaner.RunOnce | internal/services/retention/s3_cleaner.go:62-75 | Never a text of the last N days; on success, which takes nothing but a listing and requests that succeed, exactly the listed texts of earlier days; keys without a date stay |
| Retention.CutoffInHours | internal/services/retention/s3_cleaner.go:62-65 | Older than N + 1 days is always past the cutoff, younger than N days never |
| NewsTable.StepKeeps | internal/store/news/repository.go:69-159 | Every statement of every call keeps unique URLs, table and index agreement and the accounts |
| NewsAgreement.AgreementAtRest | internal/store/news/repository.go:69-159 | Between calls the rows missing from the index are exactly the lost ones, entries that are not mixed carry the text of their row, and rows plus deletions equal saved plus uncounted |
| NewsAgreement.AgreementWithoutFailures | internal/store/news/repository.go:69-159 | Without failures index ids equal news ids and saved less deleted is the row count |
| NewsStaleness.NeverStale | internal/store/news/repository.go:106-141 | While no deletion takes the row of a call between its two statements, every entry carries the text of its row |
| NewsStaleness.StaleIff | internal/store/news/repository.go:106-159 | A step lets an entry go stale later, without any failure, if and only if it deletes such a row |
| NewsStaleness.QuickCallsNeverGoStale | internal/services/retention/db_cleaner.go:60-63 | No entry goes stale while no call stays between its statements longer than rows are kept |
| NewsStaleness.EntriesGoStale | internal/store/news/repository.go:69-159 | For every retention period a run without any failure, at rest, with an entry that carries another text than its row |
| NewsAgreement.LostUntilExpiry | internal/store/news/repository.go:129-141 | A row whose index write failed stays without an entry until it expires |
| NewsAgreement.RowsGetLost | internal/store/news/repository.go:129-141 | A run that ends with such a row |
| NewsAgreement.FirstWriterStays | internal/store/news/repository.go:74-81 | The first writer of a URL keeps it unchanged until a threshold passes its creation |
| NewsAgreement.DeletesExactly | internal/store/news/repository.go:150-159 | A deletion removes exactly the rows before its threshold and counts them |
| NewsAgreement.RepeatSavesNothing | internal/store/news/repository.go:69-146 | Repeating an answered batch, with other batches around but no expiry between, saves nothing |
| NewsRepository.EveryItemAnswered | internal/store/news/repository.go:96-146 | A batch without an error leaves no item out |
| NewsRepository.Repository.InsertNews | internal/store/news/repository.go:106-124 | The rows reported are those inserted; a taken URL inserts nothing; an error exactly if the statement fails or the id is taken under another URL |
| NewsRepository.Repository.UpsertSearchIndex | internal/store/news/repository.go:129-141 | The entry is written for the row just inserted; the call fails exactly if the statement does or the row is gone |
| NewsRepository.Repository.UpsertBatch | internal/store/news/repository.go:69-146 | For any batch, also of items seen before: one outcome per item in order, a failure is the last, and the count is that of the saved items; a failure takes a failing statement, a clash of ids or a deleted row |
| NewsRepository.Repository.DeleteOlderThan | internal/store/news/repository.go:150-159 | The new tables and the number of rows removed; an error exactly if the statement fails |

## Left out

- Authentication, HTTP handlers, configuration, logging, metrics, servers, generated code and clients: wrappers over libraries and single-branch checks.
- The insides of kafka-go, pgx, go-redis, the AWS SDK, gofeed and Telegram: their calls succeed, fail, or lose their reply.
- DetectCategory: it ranges over a Go map, so ties are not deterministic; the category does not appear in the model.
- Ranking of the personal feed, and creation and editing of users, rules, subscriptions and preferences: easy members only.
- Deletion of a user: in the alert model its effect is that of deleting the user's rules.
- The error text, keyword and user columns of `alert_events`: they take no part in the protocol.
- Invalid UTF-8: texts are sequences of characters, and bytes where the code indexes bytes.
- The parsing of a whole URL by net/url: the model starts from the parsed fields, with what parsing guarantees of them (`Parsed`), and prints them as net/url does. A URL that does not parse is returned as it is. Go's optional limit on the number of query settings is not part of this model.
- sort.Slice and the sorted keys of url.Values: modelled by insertion, which does not matter since the order is unique.
- AlertCooldown.CooldownWindow: for a cooldown that is never set below the one asked about, since a lowered cooldown applies at once; deliveries that were never recorded are the subject of AlertDeliveries.DeliveryWindow.
- AlertCooldown.StrictCooldown: with the same two limits.
- AlertDeliveries.DeliveryWindow: for a cooldown that is never set below the one asked about.
- UrlPrinting.KeyIsStable: for any parser that reads back what is printed, instead of net/url's own.
- PipelineCode.Processor.ReadLoop: the endless loop is followed for any number of rounds, so it may end while still reading.
- PipelineCode.Processor.WorkerLoop: followed for any number of rounds in the same way; whether a text can be stored is left open.
- PipelineCode.Processor.SaveBatcher: followed for any number of rounds in the same way.
- Publishing of alert events by the workers of the processor, and the refreshing of its rule cache: a failure is only logged.
- CircuitBreaker.CountersClosedForm: attempts on one source follow one another and every command is answered; overlapping rounds of the scheduler make the counts inexact.
- The pool of workers that collects from the due sources, and the refreshing of the source list.
- RateLimiter.Limiter.Allow: the two pipelined commands of a call take effect at one instant.
- Sentences.SummaryIsUseful: for at least one sentence, as all callers ask for.
- Retention.ListAndDeleteOld: the listing is a given sequence of pages that ends.
- NewsRepository.Repository.UpsertBatch: the columns that no constraint concerns are one text.
- Uploading of texts and the periodic tickers of the cleaners.

# Conductor core algorithms, verified

Claude Conductor is a desktop app that drives many chat sessions from one daemon. Most of it is plumbing; a few
small stateful algorithms in it have to be exactly right. This project models those algorithms in Dafny and proves
what they promise, for every input and every run:

- **Transcript paging** (`History.dfy`, `HistoryPages.dfy`). A chat transcript is read backward from its end in
  chunks, through a buffer of partial lines. A page turns out to be a function of the bytes below its cursor alone;
  pages are compared with the forward replay; walking the cursors shows every event once.
- **Streaming transcription** (`Hypothesis.dfy`, `OnlineAsr.dfy`, `StreamingRuns.dfy`, `Engine.dfy`). LocalAgreement
  commits what two hypotheses agree on, audio behind the committed words is trimmed, text is emitted in batches. The
  speech model is adversarial: it may answer anything whose times lie in the audio it was given.
- **Civil dates** (`CivilDate.dfy`). Days since the epoch become a Gregorian date (section 3.2.1 of ISO 8601:2004)
  by nested divisions in 64-bit unsigned arithmetic, none of which can wrap.
- **Project aliases** (`Merges.dfy`, `MergeLaws.dfy`, `DeadPaths.dfy`, `Tokens.dfy`). A map with links both ways is
  changed in place; merging is shown to be a quotient, and token totals per project are conserved by it.
- **Prompt delivery** (`PromptPoll.dfy`). A polling loop against an adversary that drops the connection, fails calls
  and answers what it likes, with the trace of emitted events as ghost state.
- **Session-end watchdogs** (`ShutdownGuard.dfy`). One message pump, two atomics and any number of watchdog threads,
  interleaved step by step: every single store, swap and check is a step of its own.
- **Process-tree kill** (`KillTree.dfy`), **hero assignment** (`Heroes.dfy`), the **child environment and its Win32
  block** (`SpawnEnv.dfy`) and the **status tags in replies** (`Markers.dfy`).

`Prelude.dfy` holds shared vocabulary. `dafny verify dfyconfig.toml` checks everything.

Code that works step by step is a method or a class here too, with loops where the source has them, and each such
method is tied to a specification function; the lemmas are about those functions. Where one source function is long,
its loop bodies are methods of their own.

## Where the code and its documentation differ

The model follows the code.

- `src-tauri/src/chat/history.rs:91` says user messages count toward the page limit; lines 76-78 count assistant
  messages only.
- `src-tauri/src/chat/history.rs:188` reverses the whole event list, so the events of one line come out of a page in
  the opposite order to `replay` (`HistoryPages.TwoEventsAreSwapped`). A final carriage return without a line feed is
  another difference: `BufRead::lines` keeps it, lines 159-161 drop it (`HistoryPages.BareCrIsReadTwoWays`,
  `HistoryPages.SameLinesIff`). `HistoryPages.PageIsReplaySuffixIff` says, for every transcript, exactly when a page
  and the replay agree.
- `stt-sidecar/whisper_online.py:475` calls the prompt a 200-character suffix of the committed text; the code takes
  whole words until there are at least 200 characters, separators included, and never the last committed word.
- `stt-sidecar/engine.py:132` calls what `finish` returns committed; it is the tail that was never confirmed.
- `stt-sidecar/whisper_online.py:395-396` says the de-echo drops only words that literally match committed ones. It
  compares joined text, and `Hypothesis.SpacedWordsAreDropped` is a hypothesis of new words that it drops. The dropped
  words match literally exactly when they are as long as the committed ones, word by word
  (`Hypothesis.EchoIsLiteralIff`), which they are when no word holds an inner space (`Hypothesis.JoinedAlikeIsEqual`).
- `src-tauri/src/shutdown_guard.rs:56-57` and 153 say a cancel disarms the watchdog. A watchdog is disarmed exactly
  when one of its own checks comes while the cancel stands (`ShutdownGuard.DisarmedIffCancelSeen`); one that makes no
  check before a later session-end message takes the cancel back counts on, and can force the exit
  (`ShutdownGuard.StaleWatchdogFires`). The request to quit normally is never taken back
  (`ShutdownGuard.QuitRequestStays`).
- `src-tauri/src/daemon_link.rs:89` promises each prompt's event exactly once. It is once per connection: a pending
  prompt is shown again exactly when the app was away in between (`PromptPoll.ShownAgainIff`; lines 121-124 want that),
  and one answered while the app was away gets no removal event (`PromptPoll.RemovedIffConnected`).
- `src/shared/tokens.ts:70` gives records without a folder to the project "(unknown)" after looking up merges, so
  merging that project does not move them: `Tokens.KeyMovesIff`.
- `src-tauri/src/accounts/env.rs:84-85` promises a case-insensitively sorted block; keys that differ only in case
  are adjacent but not strictly ordered: `SpawnEnvironment.StrictIffNoCaseTwins`.
- `src-tauri/src/accounts/env.rs:8-9` says scrubbed variables never reach a child. They are matched in the listed case
  only, while Windows names ignore case: `SpawnEnvironment.ScrubsEveryCaseIff`.

## Model

| member | source | states |
|---|---|---|
| History.ReadPage | src-tauri/src/chat/history.rs:97-199 | the page is the one of the bytes below the cursor: the events of the shortest run of whole lines at their end with enough messages, line order kept, each line's events reversed, with its first and last line offsets; for every chunk size, file and cursor, on a line start or not |
| History.CollectBackward | src-tauri/src/chat/history.rs:116-186 | the backward loop ends, and what it gathered, reversed, is that run's events with their offsets |
| History.Refill | src-tauri/src/chat/history.rs:124-138 | the buffer always holds the file's bytes from the window start up to what is unread, and grows when it has no line feed |
| History.TakeLine | src-tauri/src/chat/history.rs:140-178 | the buffer's last line is taken with its true byte offset, and exactly it and the line feed before it are cut off |
| History.ParseLine | src-tauri/src/chat/history.rs:155-173 | a line adds its events to the front of the page and its assistant messages to the count; an undecodable or blank line adds nothing |
| History.Replay | src-tauri/src/chat/history.rs:56-68 | reading forward gives all lines' events in order, or an error exactly when some line does not decode |
| History.ReplayLines | src-tauri/src/chat/history.rs:59-67 | the loop over the lines: each goes from one line feed to the next and loses a carriage return before it, and the first that does not decode ends it |
| History.ReplayLine | src-tauri/src/chat/history.rs:60-66 | a line is refused exactly when it does not decode, and a blank one adds nothing |
| History.CountsAssistantMessages | src-tauri/src/chat/history.rs:76-78 | what counts toward the limit is the assistant messages, and nothing else |
| HistoryPages.CutIsShortestRun | src-tauri/src/chat/history.rs:180-185 | the page's lines hold enough messages or all lines, and every shorter run at the end holds too few |
| HistoryPages.SameLinesIff | src-tauri/src/chat/history.rs:155-161 | page and replay see the same lines exactly when the transcript does not end in a carriage return without a line feed |
| HistoryPages.PageIsReplaySuffixIff | src-tauri/src/chat/history.rs:56-68 | for every transcript that decodes, the replay of a page's lines is the end of the whole replay, and the page is that exactly when the events of each line before the last read the same both ways and those of the last, read backward, are what replay sees in it with its carriage return |
| HistoryPages.ClosedPageIsReplaySuffixIff | src-tauri/src/chat/history.rs:56-68 | without a bare carriage return at the end a page is never longer than the replay, and is its end exactly when every line of the page has events that read the same both ways |
| HistoryPages.PageIsReplaySuffix | src-tauri/src/chat/history.rs:97-199 | with at most one event to a line a page is what the replay of its own lines gives, the end of the whole replay, exactly when the last line gives the same events with its carriage return as without, and so whenever it ends in none |
| HistoryPages.TwoEventsAreSwapped | src-tauri/src/chat/history.rs:188 | a one-line transcript with two events comes out of a page the wrong way round |
| HistoryPages.BareCrIsReadTwoWays | src-tauri/src/chat/history.rs:159-161 | a transcript that ends in a carriage return on which page and replay see different lines |
| HistoryPages.CursorSplitsEvents | src-tauri/src/chat/history.rs:189-191 | a page with events has its cursor below the bound it was read from, and the events above it are the page, those below it the rest |
| HistoryPages.NoMoreIsComplete | src-tauri/src/chat/history.rs:191 | `has_more` is false only when the page holds every event below its bound |
| HistoryPages.PageNumbers | src-tauri/src/chat/history.rs:189-191 | on every page with events the oldest and newest numbers are the offsets of the first and the last line with events, every event lies between them, and there is more exactly when the first of these lines does not start the transcript |
| HistoryPages.EmptyPageNumbers | src-tauri/src/chat/history.rs:189-191 | a page without events has no more to come |
| HistoryPages.ShortPageIsLast | src-tauri/src/chat/history.rs:180-191 | a page with fewer messages than asked for holds everything, and the next one below it is empty |
| HistoryPages.PageOffsets | src-tauri/src/chat/history.rs:163-190 | a page's offsets ascend and stay below its bound |
| HistoryPages.WalkOffsets | src-tauri/src/chat/history.rs:85-190 | over a whole walk every offset of a page is below every offset of the pages above it: no two pages share a line |
| HistoryPages.WalkIsExactlyOnce | src-tauri/src/chat/history.rs:85-199 | feeding each cursor back until `has_more` is false ends, and the pages together are every event of every line once, in order |
| HistoryPages.AppendKeepsPage | src-tauri/src/chat/history.rs:111 | what is appended above a page's bound cannot change the page |
| HistoryPages.LoadWhole | src/shared/chat/event-store.ts:246-274 | the front end's loading loop, first page and then older ones put in front, ends with exactly the events of the transcript as the first request found it, whatever is appended between the requests |
| Hypothesis.DropEcho | stt-sidecar/whisper_online.py:397-410 | the words dropped are the fewest, up to five, that read like the committed tail, or none |
| Hypothesis.HypothesisBuffer.Insert | stt-sidecar/whisper_online.py:380-410 | of the new hypothesis exactly the words that start, moved by the offset, later than a tenth of a second before the committed time are kept, in order and each once, with text unchanged and both times moved, less the start that echoes; nothing else changes |
| Hypothesis.RecentIs | stt-sidecar/whisper_online.py:384-385 | the recent words are told by a strictly ascending list of places in the hypothesis, all of those and no other |
| Hypothesis.HeardIs | stt-sidecar/whisper_online.py:384-410 | what is heard is those words less the start that echoes, as many of them as the de-echo drops |
| Hypothesis.HypothesisBuffer.Flush | stt-sidecar/whisper_online.py:412-433 | the agreed words are committed with the new times, and the rest becomes the hypothesis to agree with |
| Hypothesis.HypothesisBuffer.PopCommited | stt-sidecar/whisper_online.py:435-437 | the held committed words lose what the time says, and nothing else changes |
| Hypothesis.DropsLongestStart | stt-sidecar/whisper_online.py:435-437 | what they lose is the longest start whose words all end by that time |
| Hypothesis.CommitIsLongestCommonStart | stt-sidecar/whisper_online.py:412-433 | a step commits the longest common start, by text, of the last two hypotheses, committed and kept words together are the new one, and the committed time and word become those of the last word committed, if any |
| Hypothesis.EchoIsShortAndCommitted | stt-sidecar/whisper_online.py:384-410 | what the de-echo drops is a start of at most five words whose joined text is that of as many words at the committed end |
| Hypothesis.CommitedTimeBarelyFalls | stt-sidecar/whisper_online.py:385-426 | the committed time falls by less than 0.1 s in a step, whatever the model answers |
| Hypothesis.JoinedAlikeIff | stt-sidecar/whisper_online.py:402-404 | lists of as many words that read alike are equal word by word exactly when the words are as long, one by one |
| Hypothesis.EchoIsLiteralIff | stt-sidecar/whisper_online.py:401-410 | the words dropped as an echo are the committed ones word for word exactly when they are as long, one by one |
| Hypothesis.JoinedAlikeIsEqual | stt-sidecar/whisper_online.py:402-404 | so words without inner spaces read alike only when they are equal one by one |
| Hypothesis.SpacedWordsAreDropped | stt-sidecar/whisper_online.py:384-410 | a hypothesis of two words with inner spaces, neither ever committed, that is dropped whole as an echo |
| OnlineAsr.OnlineASRProcessor.InsertAudioChunk | stt-sidecar/whisper_online.py:471-472 | samples are added at the end and nothing else changes |
| OnlineAsr.OnlineASRProcessor.Prompt | stt-sidecar/whisper_online.py:474-491 | prompt and context split the committed words at the last place before which words end in the trimmed audio, and the prompt is the shortest run of whole words before it that is long enough |
| OnlineAsr.PromptLengthIs | stt-sidecar/whisper_online.py:484-490 | words count toward the prompt with their characters and one more each |
| OnlineAsr.OnlineASRProcessor.ProcessIter | stt-sidecar/whisper_online.py:493-542 | one step on the audio held: what is returned is what is added to the committed words, and the audio is cut where it should be |
| OnlineAsr.OnlineASRProcessor.ChunkCompletedSegment | stt-sidecar/whisper_online.py:560-579 | the audio is cut at the last segment, but one or earlier, that ends inside the committed words, or not at all |
| OnlineAsr.OnlineASRProcessor.PopUncommited | stt-sidecar/whisper_online.py:569-572 | the popping loop ends at the last segment, but one or earlier, that ends by the given time, or at the first |
| OnlineAsr.OnlineASRProcessor.ChunkAtTime | stt-sidecar/whisper_online.py:585-591 | audio, held words and offset are trimmed to the given time together |
| OnlineAsr.OnlineASRProcessor.Trim | stt-sidecar/whisper_online.py:588-591 | the audio loses so many samples at its front, and starts at the given time |
| OnlineAsr.OnlineASRProcessor.Finish | stt-sidecar/whisper_online.py:619-627 | the unconfirmed words are returned and stay |
| OnlineAsr.CutTimeFits | stt-sidecar/whisper_online.py:560-591 | every cut lies between the audio's start and the last committed word's end, and inside the audio held |
| OnlineAsr.CutTimeIff | stt-sidecar/whisper_online.py:521-579 | the audio is cut exactly when more than 15 seconds of it are held and some segment but the last ends by the end of the last committed word, and then where the last of these ends |
| StreamingRuns.StepIsSafe | stt-sidecar/whisper_online.py:493-591 | a step keeps the held words a suffix of the committed ones, commits at the end only, never moves the audio's start back, and never past the end of the last committed word |
| StreamingRuns.ProcessCuts | stt-sidecar/whisper_online.py:493-591 | a step drops samples at the front only, as many as whole ones lie in the time the start moves |
| StreamingRuns.HeldIsLatest | stt-sidecar/whisper_online.py:471-591 | after every run of audio and steps the audio held is the latest of all that came in, in order |
| StreamingRuns.RunIsSound | stt-sidecar/whisper_online.py:461-542 | after every run of audio and steps from a fresh start the words held are the last committed ones, and the committed time is the end of the last of them |
| StreamingRuns.CommittedIsFinal | stt-sidecar/whisper_online.py:508-510 | over any run committed words are only added to, at the end |
| StreamingRuns.ChunkDrift | stt-sidecar/whisper_online.py:588-591 | one cut moves the believed end of the audio ahead by less than a sample and never back |
| StreamingRuns.SamplesAreAccounted | stt-sidecar/whisper_online.py:461-591 | over any run offset and audio held account for the samples inserted, ahead by less than a sample for every cut, exactly without cuts |
| Engine.DecodePcm | stt-sidecar/engine.py:115 | two bytes make a sample, and an odd number of bytes is an error; which sample, the next row says |
| Engine.DecodePcmOf | stt-sidecar/engine.py:115 | any numbers from -32768 to 32767, each written as its low byte and then its high byte, decode to the same numbers over 32768, in order |
| Engine.StripTakesWhiteSpace | stt-sidecar/engine.py:127 | white space is taken off both ends, all of it, and nothing else |
| Engine.StreamingEngine.Reset | stt-sidecar/engine.py:96-100 | a new utterance starts with nothing held, committed or emitted |
| Engine.StreamingEngine.AcceptPcm | stt-sidecar/engine.py:110-129 | under 16000 samples only the audio grows and nothing is emitted; otherwise exactly the newly committed text is emitted and the partial is the unconfirmed tail; the count of waiting samples stays below 16000 |
| Engine.StreamingEngine.Finish | stt-sidecar/engine.py:131-136 | the unconfirmed tail completes the emitted text: committed words, then the tail |
| Engine.StreamingEngine.Utterance | stt-sidecar/engine.py:96-136 | for any chunks and any model, all finals and the trailing text run together are the committed words and then the unconfirmed ones, each once; the processor has been through a run that took in exactly the chunks' samples, its held words are the last committed ones, its held audio is the latest of the samples that came in, and the end of that audio is ahead of the samples by less than one for every cut |
| Engine.StreamingEngine.Feed | stt-sidecar/engine.py:110-129 | one chunk extends the run by its samples, and by a step once enough of them wait |
| Engine.StreamingEngine.FeedAll | stt-sidecar/engine.py:110-129 | the chunks one after the other: the run has taken in exactly their samples, in order, and what was returned as final is what was committed |
| Engine.SpeechConcat | stt-sidecar/whisper_online.py:630-643 | text of words taken in two parts is the text of all of them |
| CivilDate.YearOfEra | src-tauri/build.rs:38-41 | the year found is the one whose days contain the day, and its 366th day exists only before a leap February |
| CivilDate.MonthAndDay | src-tauri/build.rs:42-44 | the month found is the one whose days contain the day, with the right day of it |
| CivilDate.EpochSecsToYmd | src-tauri/build.rs:35-47 | for every 64-bit time no step wraps, and the result is a calendar date as many days after 1970-01-01, counted year by year and month by month, as have passed |
| CivilDate.EpochIsNewYear1970 | src-tauri/build.rs:35-47 | every second of day 0 is 1970-01-01 |
| CivilDate.NextDayIsSuccessor | src-tauri/build.rs:35-47 | a day later is the calendar's next date, leap days and year ends included |
| CivilDate.SuccessorIsNextDay | src-tauri/build.rs:35-47 | the calendar's next date is a date, counted as the next day |
| CivilDate.DayNumberInverted | src-tauri/build.rs:35-47 | every date from 1970 on that fits 64 bits is found, at every second of its day |
| CivilDate.DayNumberInjective | src-tauri/build.rs:35-47 | the day count tells calendar dates apart, so the date found is the only one that fits |
| Merges.ResolveMergeChain | src/shared/merges.ts:10-18 | ends on every map, cyclic ones included, with the path the links lead to |
| Merges.ResolveEndsTheChain | src/shared/merges.ts:10-18 | the result lies at the end of a chain of links without repeats, and is a root or closes a cycle |
| Merges.FlatResolve | src/shared/merges.ts:10-18 | in a flat forest a path resolves in one link, to a root |
| Merges.AliasStore.DoMerge | src/shared/merges.ts:20-31 | the whole new alias map, alias by alias, for any map, cyclic, equal or missing paths included |
| Merges.AliasStore.DoRepoint | src/shared/merges.ts:33-46 | the same, with the old name handed on unless there is one |
| Merges.AliasStore.AdoptPaths | src/shared/merges.ts:25-30 | the merged path and every inherited one is listed once and linked to the new root |
| Merges.AliasStore.AddPath | src/shared/merges.ts:26-28 | a path is listed at the end unless it is listed already, and no other alias changes |
| Merges.AliasStore.DoUnmerge | src/shared/merges.ts:48-56 | the path's alias is gone and the primary lists it no more, an emptied list being dropped |
| MergeLaws.MergeKeepsFlatIff | src/shared/merges.ts:20-46 | merging keeps the two-way flat forest exactly when the path goes to a different, named root and is a root or already there |
| MergeLaws.MergeIsQuotient | src/shared/merges.ts:20-46 | after it, what resolved to the merged path resolves to the new root, and every other path as before |
| MergeLaws.MergeKeepsNames | src/shared/merges.ts:33-46 | no other project's name or emoji changes, and repointing hands the old name on exactly when the new root has none |
| MergeLaws.MergeOpensRoot | src/shared/merges.ts:33-46 | a root without an alias gets one, with the name handed on if there is one, and no emoji or link |
| MergeLaws.MergeRewrites | src/shared/merges.ts:20-46 | the merged path keeps a link and nothing else, its own paths are linked on, the new root lists its old paths, then the merged one, then those handed on, and no other alias changes |
| MergeLaws.UnmergeKeepsFlatIff | src/shared/merges.ts:48-56 | unmerging keeps the flat forest exactly when nothing is merged into the path and it is not merged elsewhere |
| MergeLaws.UnmergeSplits | src/shared/merges.ts:48-56 | after it the path stands for itself, and nothing else moves |
| MergeLaws.UnmergeRewrites | src/shared/merges.ts:48-56 | the path's alias goes, its primary keeps name, emoji and link and the rest of its list in order, with no list once nothing is left, and no other alias changes |
| MergeLaws.UnmergeUndoesMerge | src/shared/merges.ts:20-56 | merging a project nobody is merged into and unmerging it again resolves every path as before |
| MergeLaws.ReachableIsFlat | src/views/project-detail/subviews/folder-mapping/folder-mapping.ts:40-101 | every alias map reached from none by merges and repoints of one root into another, named root, unmerges of listed paths and renames is a flat forest |
| DeadPaths.ListRoots | src/shared/boot.ts:62-64 | the named folders of the history that are not merged away, each once |
| DeadPaths.ListRootsInOrder | src/shared/boot.ts:62-64 | the listed projects come in the order in which the history first names them |
| DeadPaths.AliveIff | src/shared/boot.ts:75-79 | in a flat forest a root is alive exactly when some existing path resolves to it |
| DeadPaths.Living | src/shared/boot.ts:75-83 | exactly the listed projects with that liveness |
| DeadPaths.LivingInOrder | src/shared/boot.ts:81-83 | the live ones, and the dead ones, keep the order of the list |
| DeadPaths.BaseNameIs | src/shared/boot.ts:87-92 | the name of a path is its last segment between separators, in lower case, whatever comes before it and however many separators end it |
| DeadPaths.NoBaseName | src/shared/boot.ts:87-92 | a path of separators only has the empty name |
| DeadPaths.Matches | src/shared/boot.ts:89-93 | exactly the live projects with the dead one's name, none more often than it is listed |
| DeadPaths.TargetIff | src/shared/boot.ts:87-94 | a dead project has a target exactly when it has a single live namesake, and the target is that one |
| DeadPaths.DeadPathCheck.CheckOne | src/shared/boot.ts:86-103 | one dead project is merged into its target, or noted as dead when it has none |
| DeadPaths.DeadPathCheck.Run | src/shared/boot.ts:56-110 | for whatever the aliases have become while the paths were looked up: the aliases after the whole check, the projects left dead, and whether anything was merged; if they are flat and the listed projects are roots still, the quotient below |
| DeadPaths.DeadPathCheck.MergeDead | src/shared/boot.ts:81-103 | the part after the wait: the dead projects are merged in turn, or noted as dead |
| DeadPaths.NextCanMerge | src/shared/boot.ts:86-100 | every merge of the loop takes a root into another, named root, whatever was merged before it |
| DeadPaths.ListedAreApart | src/shared/boot.ts:62-83 | as long as the listed projects are roots, the live and the dead ones are named roots, each once, and none is both |
| DeadPaths.ListedAreRoots | src/shared/boot.ts:62-64 | they are named roots, each once, when they are listed |
| DeadPaths.TurnKeepsFlatIff | src/shared/boot.ts:86-100 | one turn of the loop keeps a flat forest flat exactly when it merges nothing, or the target is a root still and the dead project is one or in the target already |
| DeadPaths.CheckIsQuotient | src/shared/boot.ts:86-103 | the check keeps the forest flat, sends what resolved to a dead project with a single live namesake to that one, and moves nothing else |
| Tokens.MergeMap | src/shared/tokens.ts:62-65 | each merged path, and no other, with where it leads |
| Tokens.ProjectMap.AddEntry | src/shared/tokens.ts:72-92 | the projects met so far stay in order of first appearance with their entries added up |
| Tokens.AggregateByProject | src/shared/tokens.ts:57-95 | told from the records: each of the six sums over the projects is that sum over the kept records, an absent number being 0; every project has the sums of its own kept records and the latest of their times; the projects are the keys of the kept records, in order of first appearance |
| Tokens.AggregationConserves | src/shared/tokens.ts:68-94 | the projects add up to what the entries add up to |
| Tokens.ProjectsAccount | src/shared/tokens.ts:68-94 | the entries added up per key account for the kept records so: in total, project by project, and in order |
| Tokens.ProjectIsItsRecords | src/shared/tokens.ts:85-92 | a project adds up to exactly its own kept records, field by field, and its date is the greatest of their times, each the last activity, or else the recording, or else the day |
| Tokens.KeyIsResolved | src/shared/tokens.ts:70 | a record belongs to the project its folder resolves to, and one without a folder to "(unknown)", unless the empty path was merged |
| Tokens.SubagentIff | src/shared/projects.ts:24-26 | a folder is a subagent's exactly when, between separators, a segment ".claude" is followed by a segment "subagents", in any case |
| Tokens.KeyMovesIff | src/shared/tokens.ts:70 | a merge moves a record's project along with its folder, exactly unless the record has none and "(unknown)" is involved |
| Tokens.UnknownStays | src/shared/tokens.ts:70 | a record without a folder that stays behind when "(unknown)" is merged |
| Tokens.MergeRenamesEntries | src/shared/tokens.ts:68-71 | a merge of projects that are not hidden keeps the same records, those of the merged project now under its new root |
| Tokens.MergeCombinesAggregates | src/shared/tokens.ts:57-95 | then the new root's aggregate is the sum of the two old ones, the merged project is gone, the others and the grand total are unchanged |
| PromptPoll.PromptPoller.Tick | src-tauri/src/daemon_link.rs:112-172 | one turn: the new state, the events it emits and what is on screen then, for every way a poll can come back |
| PromptPoll.PromptPoller.NoteConnection | src-tauri/src/daemon_link.rs:125-128 | what was shown is forgotten exactly on a reconnect |
| PromptPoll.PromptPoller.Announce | src-tauri/src/daemon_link.rs:139-162 | every well-formed prompt not remembered is shown once, as its first occurrence has it; every remembered one that is gone is resolved once; no other event |
| PromptPoll.PromptPoller.Meet | src-tauri/src/daemon_link.rs:140-155 | one prompt with an id is shown unless it is known or not well formed |
| PromptPoll.PromptPoller.ShowNew | src-tauri/src/daemon_link.rs:139-155 | the prompts met are all shown or remembered, with the durable flag of their first well-formed occurrence, and no other is |
| PromptPoll.PromptPoller.Show | src-tauri/src/daemon_link.rs:151-153 | a prompt is shown once and remembered with its flag |
| PromptPoll.PromptPoller.ResolveGone | src-tauri/src/daemon_link.rs:159-162 | exactly the remembered prompts that are gone are resolved, once each with their own flag, and forgotten |
| PromptPoll.PromptPoller.BackOff | src-tauri/src/daemon_link.rs:164-171 | the interval is 500 + 150 ms for each empty answer in a row, at most ten |
| PromptPoll.PromptPoller.Run | src-tauri/src/daemon_link.rs:112-172 | any number of turns keeps the listener's screen equal to what is remembered, never takes an event back, and lets every prompt's events between two clears alternate |
| PromptPoll.ShownAndResolvedAlternate | src-tauri/src/daemon_link.rs:139-162 | in the poller's trace, between any two clears, a prompt's shown and resolved events strictly alternate, shown first, and it is on screen exactly after an odd number of them |
| PromptPoll.PendingOnScreen | src-tauri/src/daemon_link.rs:139-162 | whatever was on screen, any events that announce an answer make sense to the listener and leave on its screen every well-formed prompt of the answer, those still pending that were there, and nothing else |
| PromptPoll.ShownAgainIff | src-tauri/src/daemon_link.rs:121-147 | a prompt shown before and still pending is shown again by the next answer exactly when the app was not connected or an offline poll came in between |
| PromptPoll.ShownAgainAfterReconnect | src-tauri/src/daemon_link.rs:121-128 | after being offline, the first answer shows every well-formed pending prompt again, however many failed polls come between, and resolves nothing |
| PromptPoll.RemovedIffConnected | src-tauri/src/daemon_link.rs:125-162 | a shown prompt that is gone gets its removal event from the next answer exactly when the app was connected and no offline poll came in between |
| PromptPoll.BackOffCountsEmptyAnswers | src-tauri/src/daemon_link.rs:129-171 | the back-off counts empty answers only: failed polls between them neither slow nor reset it |
| PromptPoll.ActivityResetsBackOff | src-tauri/src/daemon_link.rs:164-171 | a prompt or a busy session brings the interval back to 500 ms whatever came before, and from then on it counts the empty answers |
| PromptPoll.ResolvedAsShown | src-tauri/src/daemon_link.rs:139-162 | a new prompt is shown as its first well-formed occurrence has it, and resolved with the durability of that one when the next answer lacks it |
| ShutdownGuard.RunKeepsConsistent | src-tauri/src/shutdown_guard.rs:134-216 | over every interleaving the atomics tell where the pump is, and while the session is ending the newest watchdog is on |
| ShutdownGuard.ArmedAtMostOncePerCancel | src-tauri/src/shutdown_guard.rs:149-177 | at most one watchdog is armed, plus one for each cancel |
| ShutdownGuard.QuitRequestStays | src-tauri/src/shutdown_guard.rs:179-187 | the request to quit normally is never taken back |
| ShutdownGuard.ForcedExitWasAnnounced | src-tauri/src/shutdown_guard.rs:169-216 | a forced exit comes from a watchdog armed by one session-end message, after all its 15 checks made since, each of which found no cancel |
| ShutdownGuard.WithoutCancelStaysOn | src-tauri/src/shutdown_guard.rs:196-216 | without a cancel a watchdog counts its checks, its next step is always possible and the last one ends the process |
| ShutdownGuard.BeginLeavesWatchdogOn | src-tauri/src/shutdown_guard.rs:169-177 | every handled session-end message leaves a watchdog on, whether it is the first or not |
| ShutdownGuard.BeginEndsInExit | src-tauri/src/shutdown_guard.rs:134-216 | once a session-end message is handled and no cancel follows, in every continuation the process has exited or the newest watchdog is at most 15 checks from exiting it, with a step to take |
| ShutdownGuard.DisarmedIffCancelSeen | src-tauri/src/shutdown_guard.rs:149-216 | in every interleaving a watchdog that is on ends up disarmed exactly when one of its own checks finds the shutdown called off; otherwise it counts every check, can always take its next step, and ends the process with the one after the last |
| ShutdownGuard.CancelDisarms | src-tauri/src/shutdown_guard.rs:149-207 | so after a cancel with no later session-end message a watchdog with a check left never forces an exit, and its next check ends it |
| ShutdownGuard.CancelAndBeginRearms | src-tauri/src/shutdown_guard.rs:149-177 | a cancel and a new session-end message arm one more watchdog and touch no other |
| ShutdownGuard.StaleWatchdogFires | src-tauri/src/shutdown_guard.rs:149-216 | from every state with a watchdog on and a check left there is a run with a cancel in which it misses the cancel and forces the exit, before the new watchdog has checked once |
| KillTree.PidsToKill | src-tauri/src/channels/kill.rs:10-50 | the root first, and without a snapshot only it; with one, the list below |
| KillTree.CollectTree | src-tauri/src/channels/kill.rs:39-50 | ends on every snapshot, parent cycles and repeated pids included; the list is exactly the processes reachable from the root, each after its parent, level by level (nothing before the first place of a process is further from the root), and each once when pids are unique |
| KillTree.StepKeepsLevels | src-tauri/src/channels/kill.rs:43-50 | a turn keeps the queue on two levels at most, with every depth that of a path from the root |
| KillTree.PushChildren | src-tauri/src/channels/kill.rs:45-49 | exactly the children not yet listed join the end of the queue, in snapshot order |
| KillTree.ChildrenInOrder | src-tauri/src/channels/kill.rs:45-49 | the children are those at a strictly ascending list of places in the snapshot, all that fit and no other |
| KillTree.StepDecreases | src-tauri/src/channels/kill.rs:43-50 | a turn lists a new process, or brings the first unlisted one of the queue closer |
| KillTree.StepKeepsUnique | src-tauri/src/channels/kill.rs:43-50 | with unique pids no process is queued or listed twice |
| Heroes.PickIsFirstBest | src-tauri/src/characters/assign.rs:64-85 | nothing is picked from an empty pool, and otherwise the first of the best in pool order: free before taken, then the project's letter |
| Heroes.PickPrefers | src-tauri/src/characters/assign.rs:64-85 | the pick is taken only if every hero is, leads with the letter if any hero as free does, and is the first such hero |
| Heroes.FirstLetterIs | src-tauri/src/characters/assign.rs:53-57 | the letter is the first ASCII letter of the name in lower case, and a name without letters has none |
| Heroes.Order | src-tauri/src/characters/assign.rs:104-110 | every project once, by name without case, then id |
| Heroes.OrderIsStable | src-tauri/src/characters/assign.rs:105-110 | projects that tie stay in list order |
| Heroes.BeforeIs | src-tauri/src/characters/assign.rs:105-110 | names that differ in more than case are ordered by their lower case, names that do not by id |
| Heroes.Settings.BackfillWithPool | src-tauri/src/characters/assign.rs:100-122 | the projects in order get the heroes picked one after the other, nothing else of them changes, and all are counted |
| Heroes.HeroesAreDistinct | src-tauri/src/characters/assign.rs:93-122 | after a backfill every project has a hero of the pool, and with no more projects than heroes no two have the same |
| Heroes.WholePoolIsUsed | src-tauri/src/characters/assign.rs:100-122 | with more projects than heroes the first ones in order have the whole pool, each hero once |
| Heroes.BackfillIgnoresOrder | src-tauri/src/characters/assign.rs:93-122 | with unique ids a project's hero does not depend on the order the projects are listed in |
| SpawnEnvironment.EffectiveEnv | src-tauri/src/accounts/env.rs:67-79 | overrides win over the scrub list, which wins over the ambient values, and later values over earlier ones |
| SpawnEnvironment.SortedKeys | src-tauri/src/accounts/env.rs:89-90 | every key once, by upper-cased key, ties in the map's own order |
| SpawnEnvironment.KeyBeforeIs | src-tauri/src/accounts/env.rs:89-90 | keys that differ in more than case are ordered by their upper case, the others as the map orders them |
| SpawnEnvironment.WindowsEnvBlock | src-tauri/src/accounts/env.rs:88-104 | the block of the variables in that order |
| SpawnEnvironment.DecodeEncode | src-tauri/src/accounts/env.rs:93 | UTF-16 decodes back to the same text, characters beyond the basic plane included |
| SpawnEnvironment.EncodeCharIs | src-tauri/src/accounts/env.rs:93 | a character of the first plane is its own unit, any other a surrogate pair, high half first, that decodes as section 2.2 of RFC 2781 says |
| SpawnEnvironment.BlockRoundTripIff | src-tauri/src/accounts/env.rs:88-104 | splitting the block at NULs, then each entry at its first '=', gives the variables back exactly when no NUL occurs in them and no '=' in a key; looking for the '=' from the second character on, as Windows does, exactly when keys are not empty and hold none after their first character |
| SpawnEnvironment.EndsInTwoNuls | src-tauri/src/accounts/env.rs:96-103 | every block ends in two NULs, and that of no variables is nothing else |
| SpawnEnvironment.StrictIffNoCaseTwins | src-tauri/src/accounts/env.rs:84-90 | the case-insensitive order is strict exactly when no two keys differ only in case |
| SpawnEnvironment.TwinsAreNotStrict | src-tauri/src/accounts/env.rs:84-90 | two keys listed in an order that is not strict |
| SpawnEnvironment.CapitalsComeFirst | src-tauri/src/accounts/env.rs:89-90 | a name in capitals is listed before all its case variants |
| SpawnEnvironment.OverrideComesFirst | src-tauri/src/accounts/env.rs:32-36 | in the block the account's directory comes before an ambient one in another case, so the first name that fits, whatever its case, is the override |
| SpawnEnvironment.ChildBlock | src-tauri/src/accounts/env.rs:32-104 | from account and ambient environment, names such as "=C:" included, to the block read back as Windows reads it: the account's directory is set, the scrubbed variables are gone, all else is as it was |
| SpawnEnvironment.ScrubsEveryCaseIff | src-tauri/src/accounts/env.rs:67-79 | no scrubbed name is left in any case exactly when the ambient environment holds each in the listed case only |
| SpawnEnvironment.OtherCaseStays | src-tauri/src/accounts/env.rs:67-79 | an ambient name in another case that is left |
| Markers.DetectAwaiting | src-tauri/src/chat/markers.rs:20-43 | the label of the last position where a well-formed marker starts, or none when there is none, on every text |
| Markers.FindOpen | src-tauri/src/chat/markers.rs:26 | up to the next opening tag, or the end, no marker starts, so the last one found so far stays the last |
| Markers.ReadMarker | src-tauri/src/chat/markers.rs:27-40 | after an opening tag the answer covers every position up to the tag's end |
| Markers.LabelOf | src-tauri/src/chat/markers.rs:30-38 | the closed label the body starts with, or none when no label fits |
| Markers.ClosedIffMarker | src-tauri/src/chat/markers.rs:29-38 | the two trims and prefix tests accept exactly the spans of a marker |
| Markers.NoOverlap | src-tauri/src/chat/markers.rs:40 | the opening tag cannot overlap itself |
| Markers.OneMarkerPerOpen | src-tauri/src/chat/markers.rs:26-40 | so skipping over it skips no marker |
| Markers.DetectAutopilot | src-tauri/src/chat/markers.rs:47-57 | what the last autopilot tag says, or none |

## Left out

- The line parser and UTF-8 decoding are a parameter (`History.Reader`); of decoding only that the empty string
  decodes to itself is assumed. Neither source is part of this model.
- File errors of `read_page` and `replay`, wrap-around of the 32-bit message counter, finding the transcript.
- The front end's live events, caching and listeners: `HistoryPages.LoadWhole` is the page requests and their order.
- Vocabulary and corrections (taken as empty), the speech and voice-activity models (any answer whose word starts
  precede their ends and whose segment ends lie in the audio), sentence trimming, the VAC processor.
- Rounding of floating-point times: times are reals.
- OnlineAsr.OnlineASRProcessor.ChunkAtTime: a time outside the audio held, where Python's slice counts from the end or
  is empty, is not modelled; `OnlineAsr.CutTimeFits` shows the only caller never passes one.
- Opening and terminating processes, and the tree kill of other systems.
- PromptPoll.PromptPoller.Announce: the order of the removal events of one poll is left open, as the hash map's is.
- The JSON of a prompt is reduced to the four fields that are read; sleeping and the daemon's connection are the
  adversary's choice of polls.
- `run_app_subscription` and the session filters of the same file: filters that would only add easy members.
- ShutdownGuard: on values, as interleaved steps, since its point is other threads running between any two stores.
  Failing to start a thread or to create the window, and messages left to the default handler, are not modelled.
- Time itself: a watchdog's poll is a step; that each sleeps 100 ms is not.
- Letter case is ASCII everywhere, not the Unicode case tables.
- Alias lists are values: two aliases sharing one array, and keys found on JavaScript's object prototype, are not
  modelled. Saving settings and redrawing are left out.
- DeadPaths.DeadPathCheck.Run: the aliases may have become anything during the wait, but they are the same object; a
  settings object replaced in the meantime is not modelled.
- Merges.AliasStore.DoUnmerge: a missing map, for which the program returns at once, is not modelled.
- `totalTok`, `cacheEffPct`, `tokensAllIn` and the formatters; reading the hero pool from disk and `pick_hero`;
  `apply_tokio` and `apply_std`.

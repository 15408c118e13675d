# Verified models of VitaArc components

VitaArc runs an Android ELF on the Vita behind a C ABI bridge. Under its platform calls lie self-contained
algorithms and protocols. This project models them in Dafny and proves what they are for.

| files | component | main results |
|---|---|---|
| `MatchPattern`, `Match`, `MatchText`, `MatchStandard` | the glob matcher | the greedy loop that retries one star decides "some assignment of stars"; what each kind of pattern matches; which patterns it matches as the standard asks |
| `OnceProtocol`, `Once` | `pthread_once` | one initializer at a time, once, with exact counts and no lost wakeup, under cancellation; what each entering call gets |
| `FeedTrack`, `FeedRing`, `Feed`, `FeedLoop`, `FeedAnswers`, `FeedCodec` | the audio feed | in every interleaving readers get the decoder's output, gapless, with its own positions; every command is answered, with what the codec said; exactly which files that serves |
| `MemoryPages`, `Memory`, `MemoryCalls` | the `mmap` registry | it refines a page map of contents and protections; `mremap` succeeds exactly when it can, and otherwise leaves everything as it was |
| `Mp3Position`, `Mp3`, `Mp3Index`, `Vorbis` | stream positions | a seek lands where sequential playback would be; behind refused frames playback goes on, short by them; exactly which seeks are stale |
| `ReferenceTable`, `ReferenceList`, `References`, `ReferenceCalls` | JNI references | exact ownership over every run; what each call takes and leaves; a native call, or a pushed frame, gives its caller everything back |
| `ThreadProtocol`, `Thread`, `ThreadCalls` | JNI threads and VM lifetime | mutex and depth agree; when each call succeeds; destruction is final, complete and cleaned up once |
| `Descriptor`, `DescriptorTexts`, `NativeCall` | JNI descriptors and Arm calls | the parser accepts exactly the grammar; the packed words agree with AAPCS32 |
| `ElfRecords`, `ElfImage`, `ElfCheck`, `ElfAccepts`, `ElfLoad`, `ElfCalls`, `Relocation`, `RelocationCalls` | the ELF loader | its records are read as the ABI lays them out; exactly which images are accepted; an accepted image justifies every later access; two passes give one-shot values in any order |
| `ExitCallbacks`, `Library`, `UnloadCalls` | unloading | each stage of a library's life happens at most once, in order, with its last handle and its callbacks drained |
| `PreferencesCodec`, `Preferences`, `PreferencesCalls` | the preferences file | an exact inverse pair; a run of calls is a run on a finite map |
| `AssetCache`, `AssetCalls` | the asset name cache | transparent, and a least-recently-used cache of sixteen under concurrent calls |
| `Sfx`, `SfxCalls` | scheduled sound effects | consumption through a skip pointer is a full scan; every event starts once, in its block |
| `Common`, `Words` | shared | options, C strings, bytes and little-endian words |

Code that changes state in the source is a class or a method over arrays and fields here, proved against a
specification function or a protocol step; the theorems are about those. Protocols between threads are state
machines whose steps are the source's critical sections, and every theorem about them is over all runs. `MatchText`,
`FeedAnswers`, `DescriptorTexts`, `ElfRecords`, `ElfAccepts` and the modules whose name ends in `Calls` say when calls
succeed and what they decide in terms of their own, apart from the functions that the code is proved against. Guest
memory, files, codecs and the kernel appear as parameters that may answer or fail in any way.

`dafny verify dfyconfig.toml` checks the project.

Where a property does not hold of the code without a condition, the exact condition is proved:

- Section 2.13 of POSIX.1-2017, XCU, and section 9.3.5 of XBD give patterns a reading of their own, which
  `MatchStandard` states with its own tokeniser. The code matches a pattern as the standard asks, on every text, when no
  bracket has a collating symbol, an equivalence class or a class name beyond 30 bytes for a member, and, under
  PATHNAME, none holds a slash: exactly if it quotes no slash under PATHNAME (`MatchStandard.MatchesStandard`). Under
  PATHNAME a pattern that quotes a slash matches nothing, and without LEADING_DIR one with a slash in a bracket never
  matches a text that the standard lets it match (`SlashedBracketsDiffer`). Witnesses are `EscapedSlash`, `SlashInBracket` and
  `CollatingMembers`. What the standard leaves open is read as the code does: "^" after a bracket, ranges by code point,
  unknown or unfinished classes, a backslash in a bracket, a trailing backslash, and the flags CASEFOLD and LEADING_DIR.
- The feed sees a wrap as a falling position, which works for every file except one that makes exactly one output frame,
  `0 < total*48000 <= rate` (`FeedCodec.SoundExactly`, `FeedCodec.FeedServesExactly`; `FeedCodec.OneFrameMisreports`
  shows what goes wrong).
- An MP3 seek that neither goes back nor more than a second ahead only skips on from where the stream is. It can then
  answer true at a wrong place, in two cases: frames were refused and the file was played on to its end, which forgets
  the failure; or a seek was denied and its warm-up and rewind both failed (`Mp3.StaleOnlyAfter`; `Mp3.StaleSeek` shows
  the first). A caller is safe outside these: a seek that answers true is exact if it leaps, or if the file has
  no refused frame and no seek was denied since the last one that leapt (`Mp3.Stream.SeekFrames`).
- Detaching gives the mutex up even if the thread held it before, which is the case exactly at a positive depth
  (`Thread.DetachReleases`); a thread asleep in a wait keeps a positive depth without the mutex (`Thread.MutexIsDepth`).

## Model

| member | source | states |
|---|---|---|
| `MatchPattern.NextCharacter` | src/bridges/libc/match.c:16-45 | decodes one unit as `Character` says: a malformed, overlong, surrogate or cut-off sequence stands for its first byte |
| `MatchPattern.Utf8RoundTrip` | src/bridges/libc/match.c:16-45 | well-formed UTF-8 (RFC 3629, section 3) is read back as the scalar value it encodes, wherever it stands in the text |
| `MatchPattern.AsciiUnits` | src/bridges/libc/match.c:158-168 | a decoded unit is an ASCII character exactly when its only byte is, so the byte tests for `/` and `.` see characters |
| `MatchPattern.ReadBracket` | src/bridges/libc/match.c:82-117 | the bracket loop finds the same closing offset and decides the same membership as the parsed item list; -1 exactly without a closing bracket |
| `MatchPattern.ReadLiteral` | src/bridges/libc/match.c:52-59 | a possibly quoted character, folded, and the offset after it |
| `MatchPattern.MatchUnit` | src/bridges/libc/match.c:119-146 | a unit matches exactly when its token takes the character, and then consumes exactly its token's pattern text, whatever the character |
| `MatchPattern.ExplicitDot` | src/bridges/libc/match.c:158-168 | the byte test for a leading dot asks for a literal dot token, quoted or not |
| `Match.MatchesByRecursion` | src/bridges/libc/match.c:148-197 | the recursive relation the loop is proved against is the declarative one: some assignment of stars |
| `Match.RunsStayTogether` | src/bridges/libc/match.c:119-196 | two runs of the same star-free tokens that start with no slash between them never get one between them |
| `Match.SlashFixesRun` | src/bridges/libc/match.c:119-196 | when the last token of a run took a slash, every other such run took the same slash |
| `Match.LastStarIsEnough` | src/bridges/libc/match.c:170-196 | after the tokens up to the next star ran from the first possible place, only that next star needs retrying |
| `Match.HiddenDotIsFinal` | src/bridges/libc/match.c:158-168 | stopping at a leading dot loses nothing: no star can avoid it |
| `Match.NothingToRetry` | src/bridges/libc/match.c:182-193 | a star that reached a slash with PATHNAME, or the end of the text, has nothing more to offer |
| `Match.StarsCollapse` | src/bridges/libc/match.c:170-174 | a star straight after a star adds nothing |
| `Match.RetryStep` | src/bridges/libc/match.c:182-196 | giving the last star one more character keeps the loop's knowledge of where the answer lies, or proves there is none |
| `Match.StopsAtDot` | src/bridges/libc/match.c:156-168 | the dot test stops exactly at a hidden dot without a literal dot token |
| `Match.SkipStars` | src/bridges/libc/match.c:170-174 | the loop over a group of stars ends behind the group |
| `Match.Search` | src/bridges/libc/match.c:153-197 | the greedy loop terminates and decides the declarative relation |
| `Match.Fnmatch` | src/bridges/libc/match.c:148-197 | the result is 0 or 1, and 0 exactly when both strings are given, the flags are known and some assignment of stars matches |
| `MatchStandard.SameTokens` | src/bridges/libc/match.c:61-146 | plain patterns, with no collating symbol, equivalence class or overlong class name in a bracket and, under PATHNAME, no slash in one, are read by the code as section 2.13 of POSIX.1-2017, XCU, and section 9.3.5 of XBD read them |
| `MatchStandard.ListedAlike` | src/bridges/libc/match.c:82-117 | what the code's bracket takes is what the standard's takes, which is stated on its own: inverted or not, a member, a range with both ends, a class |
| `MatchStandard.TakenAlike` | src/bridges/libc/match.c:119-146 | the code's token takes a character exactly when the standard's does, unless it is a quoted slash under PATHNAME |
| `MatchStandard.PieceOfStandard` | src/bridges/libc/match.c:119-168 | the same for the stretch of text that a token or a star takes, with the leading period |
| `MatchStandard.AssignmentOfStandard` | src/bridges/libc/match.c:119-197 | on the same tokens an assignment of the code is one of the standard without a quoted slash under PATHNAME, for every assignment |
| `MatchStandard.MatchesStandard` | src/bridges/libc/match.c:61-197 | a plain pattern is matched as the standard asks, on every text, if and only if it does not quote a slash under PATHNAME; one that does matches nothing |
| `MatchStandard.MatchedSlashes` | src/bridges/libc/match.c:119-146 | under PATHNAME the text matched so far has as many slashes as the tokens that took it |
| `MatchStandard.CodeSlashes` | src/bridges/libc/match.c:82-146 | the code's tokens take only the slashes outside brackets |
| `MatchStandard.PosixSlashes` | src/bridges/libc/match.c:82-146 | the standard's tokens take every slash of the pattern |
| `MatchStandard.SlashedBracketsDiffer` | src/bridges/libc/match.c:82-146 | under PATHNAME, without LEADING_DIR, no text is matched by both the code and the standard when a bracket of the pattern holds a slash |
| `MatchStandard.EscapedSlash` | src/bridges/libc/match.c:119-146 | a witness: the plain pattern `\/` matches `/` for the code if and only if PATHNAME is off, and always by the standard |
| `MatchStandard.SlashInBracket` | src/bridges/libc/match.c:82-146 | a witness: under PATHNAME, without CASEFOLD, `a[b/c]d` matches `abd` and not itself for the code, and itself and not `abd` by the standard |
| `MatchStandard.CollatingMembers` | src/bridges/libc/match.c:61-117 | a witness: `[[.a.]]` matches `a` by the standard and not for the code, and so does `[[=a=]]` where the locale has `a` in its own class |
| `MatchText.OnlyUtf8IsDecoded` | src/bridges/libc/match.c:16-45 | a unit is a byte that stands for itself or the well-formed UTF-8 of a scalar value: nothing malformed, overlong, too large or of a surrogate is decoded |
| `MatchText.FlagsExactly` | src/bridges/libc/match.c:8-152 | which bit of the flag word is which flag |
| `MatchText.OrdinaryMatches` | src/bridges/libc/match.c:47-197 | text without special characters matches exactly what it is, character by character, with CASEFOLD up to case, with LEADING_DIR also as the part before a slash |
| `MatchText.AnyMatches` | src/bridges/libc/match.c:119-168 | `?` matches exactly one character that is not a slash under PATHNAME nor a hidden period |
| `MatchText.StarMatches` | src/bridges/libc/match.c:148-197 | `*` matches exactly what does not start with a hidden period and, under PATHNAME, has no slash |
| `MatchText.QuotedMatches` | src/bridges/libc/match.c:52-146 | a backslash and any character match exactly that character, except a slash under PATHNAME |
| `MatchText.RangeMatches` | src/bridges/libc/match.c:82-117 | for all `x` and `y`, `[x-y]` matches exactly one visible character from `x` to `y`, both ends included, and `[!x-y]` and `[^x-y]` exactly one other; with CASEFOLD the lower cases are compared |
| `MatchText.ClassMatches` | src/bridges/libc/match.c:61-117 | `[[:name:]]` matches exactly one visible character of the locale's class of that name, and its complement exactly one other |
| `OnceProtocol.StepKeeps` | src/bridges/libc/once.c:24-154 | every step of every call, with wakeups and cancellation at any allowed point, keeps the whole invariant |
| `OnceProtocol.ReleaseKeeps` | src/bridges/libc/once.c:24-37 | dropping a user restores exact user counts, and a freed record has no user left |
| `OnceProtocol.SettleKeeps` | src/bridges/libc/once.c:110-133 | one turn of the waiting loop returns, becomes the only initializer or sleeps, within the invariant |
| `OnceProtocol.EnterKeeps` | src/bridges/libc/once.c:78-109 | entering finds the control's only record, makes one, or returns; EINVAL is not an answer of this section |
| `Once.RunKeepsInvariant` | src/bridges/libc/once.c:61-154 | the invariant holds at every moment of every run from zeroed controls |
| `Once.OneInitializerAtATime` | src/bridges/libc/once.c:66-154 | no control has two running initializers, its word is RUNNING exactly meanwhile, none completes twice, 0 is returned only after completion and EINVAL never once the arguments were accepted |
| `Once.RegistryIsExact` | src/bridges/libc/once.c:24-109 | one record per control, `users` counts exactly the calls inside it and `__once_waiters` exactly the sleepers |
| `Once.NobodySleepsInVain` | src/bridges/libc/once.c:109-150 | an unsignalled sleeper's control has a running initializer: no lost wakeup |
| `Once.WakingMakesProgress` | src/bridges/libc/once.c:109-133 | a sleeper that wakes with no initializer running returns 0 when the control is done, and otherwise becomes the initializer |
| `Once.EndWakesEveryone` | src/bridges/libc/once.c:39-151 | the end of an initializer, completed or cancelled, signals every sleeper; a cancelled one leaves the control as if nobody had tried |
| `Once.DoneIsForever` | src/bridges/libc/once.c:66-151 | DONE is absorbing over every run |
| `Once.SectionsAreReady` | src/bridges/libc/once.c:61-154 | between critical sections every method below finds what it requires |
| `Once.EnteringDecides` | src/bridges/libc/once.c:78-142 | in every reachable state: entering answers 0 at once exactly for a control that is done, ENOMEM exactly without memory and without a record of the control, runs the initializer itself exactly when nobody does, and otherwise sleeps on the record of the one who does |
| `Once.BeginningDecides` | src/bridges/libc/once.c:63-77 | a control that is done is answered without the lock, and a lock that fails is an error; nothing else changes |
| `Once.WaitsEndApart` | src/bridges/libc/once.c:110-133 | a wait that fails answers its error and a cancelled one nothing, whatever the control is at by then |
| `Once.StepsAreLocal` | src/bridges/libc/once.c:24-154 | a step of one call touches no other call except by signalling it, and no control's word but the one it initializes |
| `Once.OnceRegistry.ReleaseEntry` | src/bridges/libc/once.c:24-37 | the state becomes `Release` of the old one: the last user frees the record |
| `Once.OnceRegistry.FindEntry` | src/bridges/libc/once.c:78-82 | the search finds the first record of the control |
| `Once.OnceRegistry.BeginCall` | src/bridges/libc/once.c:61-68 | EINVAL exactly for a null or misaligned control or a null initializer, without any effect; otherwise the protocol's beginning step |
| `Once.OnceRegistry.EnterCall` | src/bridges/libc/once.c:78-109 | the first critical section is the protocol's entering step |
| `Once.OnceRegistry.SettleCall` | src/bridges/libc/once.c:110-133 | one turn of the loop is the protocol's settling step, and the answer is where the call now stands |
| `Once.OnceRegistry.WakeCall` | src/bridges/libc/once.c:124-133 | reacquiring the mutex is the protocol's waking step |
| `Once.OnceRegistry.AbandonWait` | src/bridges/libc/once.c:53-131 | cancelling a wait, or failing it, is the protocol's step |
| `Once.OnceRegistry.EndInitializer` | src/bridges/libc/once.c:39-151 | publishing the word, waking everyone and releasing the record is the protocol's step |
| `FeedTrack.AfterAdd` | src/bridges/audio/feed.c:88-110 | decoding `a` frames and then `b` is decoding `a + b` |
| `FeedTrack.FramesSlice` | src/bridges/audio/feed.c:88-110 | consecutive frames of the output are one stretch of it |
| `FeedTrack.Decode` | src/bridges/audio/feed.c:88-110 | a block is what reading frame by frame up to the block's length, the end or a falling position makes; of a decoder whose wraps can be seen that is a longest stretch of its output |
| `FeedTrack.FilledIsOutput` | src/bridges/audio/feed.c:88-110 | of a decoder whose wraps can be seen, the loop makes a block of its output, from any part of one on |
| `FeedTrack.PushReady` | src/bridges/audio/feed.c:112-141 | queueing the next block keeps the consumer's position and queue one gapless stretch of output |
| `FeedTrack.ReadContinues` | src/bridges/audio/feed.c:422-467 | a read takes exactly the output that follows the reported position, as much as is asked for and ready, and the position becomes the decoder's own after the last frame |
| `FeedCodec.OneFrameDuration` | src/bridges/audio/stream.c:86-89 | a file makes exactly one output frame if and only if `0 < total*48000 <= rate` |
| `FeedCodec.VorbisIsTrack` | src/bridges/audio/stream.c:195-223 | a Vorbis file is to the feed the decoder `TrackOf` describes: which frame a call emits, which position it leaves, and when it ends, looped or not |
| `FeedCodec.VorbisSeekIsLand` | src/bridges/audio/stream.c:106-146 | a Vorbis seek lands where that decoder's does |
| `FeedCodec.OnTrackPlaced` | src/bridges/audio/mp3.c:362-382 | up to 48000 the MP3 resampler and the Vorbis one take the same steps |
| `FeedCodec.Mp3IsTrack` | src/bridges/audio/mp3.c:362-382 | an MP3 file is to the feed the same decoder |
| `FeedCodec.Mp3SeekIsLand` | src/bridges/audio/mp3.c:479-515 | where sequential playback gets by a count is where that decoder's seek lands |
| `FeedCodec.Mp3SeekLands` | src/bridges/audio/mp3.c:479-515 | an MP3 seek that answers true lands there if it goes back or more than a second ahead, or in a file without refused frames whose last seeks were not denied |
| `FeedCodec.SoundExactly` | src/bridges/audio/feed.c:88-110 | what the feed's theorems assume of a decoder holds of a file of either codec if and only if it does not make exactly one output frame |
| `FeedCodec.OneFrameMisreports` | src/bridges/audio/feed.c:88-467 | at a looped file of one frame the wrap is not seen: a block of it is filled, and a reader who took `n` frames is told position `n` while the decoder stands at 0 |
| `FeedCodec.FeedServesExactly` | src/bridges/audio/feed.c:88-110 | the blocks the feed makes, at every position and in both modes, are the decoder's output if and only if the file does not make exactly one output frame |
| `Feed.StepKeeps` | src/bridges/audio/feed.c:112-467 | every step of worker, readers and control calls keeps the invariant |
| `Feed.RunKeepsInvariant` | src/bridges/audio/feed.c:112-467 | the invariant holds at every moment of every interleaving |
| `Feed.DeliveredIsDecoderOutput` | src/bridges/audio/feed.c:422-467 | the frames read since the last completed command are exactly the first frames of the decoder's output from where it left the stream, and the reported position is the decoder's own, also across a wrap |
| `Feed.EndMeansEverythingDelivered` | src/bridges/audio/feed.c:455-467 | the end is reported only when the whole output was delivered, or the codec was lost by a command |
| `Feed.SuccessPlacesTheStream` | src/bridges/audio/feed.c:143-331 | a posted command that the worker answers true has restarted the sequence at its target with its loop mode |
| `Feed.ImmediateSuccess` | src/bridges/audio/feed.c:333-408 | a seek or start is answered at once exactly when the feed is already there: nothing is restarted, and position, loop mode and the frames delivered are already as asked; otherwise the command is posted with its target |
| `Feed.OnlyCommandsRestart` | src/bridges/audio/feed.c:177-342 | no other step restarts the sequence: a failed seek whose restore succeeds leaves frames, position and loop mode unbroken |
| `Feed.PendingCommandFreezesReaders` | src/bridges/audio/feed.c:422-467 | while a command is pending no frame is delivered and no position moves |
| `Feed.SequenceContinues` | src/bridges/audio/feed.c:112-467 | between two moments without a restart what was delivered only grows, from one origin |
| `FeedAnswers.AnswerIsTheCodecs` | src/bridges/audio/feed.c:143-331 | in every run, from the step that asks the codec to the next command's end, a command's answer is true if and only if the codec reached the target, or opened the stream |
| `FeedAnswers.AnswersAreToQuestions` | src/bridges/audio/feed.c:143-203 | every priming, and so every answer, is to a command that asked the codec |
| `FeedAnswers.WorkerCanMove` | src/bridges/audio/feed.c:112-236 | while a command is pending the worker always has a step to take |
| `FeedAnswers.RankFalls` | src/bridges/audio/feed.c:112-236 | each such step brings the answer nearer, and the last one gives it |
| `FeedAnswers.CommandsAreAnswered` | src/bridges/audio/feed.c:112-331 | a pending command is answered after at most `3 * 4 + 13` steps of the worker, whatever readers and other calls do in between, unless the feed is closed |
| `FeedAnswers.AnswersAreReady` | src/bridges/audio/feed.c:143-156 | when a command is answered four blocks are queued, or all the output there is |
| `FeedAnswers.IdleWorkerFills` | src/bridges/audio/feed.c:112-236 | an idle worker of an active feed queues the next block of output, and sets the end exactly when decoding came to it |
| `FeedAnswers.ActiveExactly` | src/bridges/audio/feed.c:320-467 | a feed is active exactly from a read, or a start that succeeded, until it is parked or opened anew |
| `FeedRing.SlotsDiffer` | src/bridges/audio/feed.c:112-141 | no two queued blocks share a ring slot, nor the next one to be stored |
| `FeedRing.Ring.Push` | src/bridges/audio/feed.c:132-136 | the queue grows by the block at its end and nothing else changes |
| `FeedRing.Ring.Reset` | src/bridges/audio/feed.c:193-199 | the queue is empty at the new position |
| `FeedRing.Ring.Copy` | src/bridges/audio/feed.c:441-458 | one turn of the copying loop, on the ring itself |
| `FeedRing.Ring.ReadFrames` | src/bridges/audio/feed.c:422-467 | the ring's copying loop takes exactly what the queue model's read takes |
| `FeedLoop.AudioFeed.CheckFill` | src/bridges/audio/feed.c:114-121 | the first critical section of a fill is the model's step |
| `FeedLoop.AudioFeed.PushBlock` | src/bridges/audio/feed.c:126-140 | a decoded block is queued in the ring or discarded as the model says |
| `FeedLoop.AudioFeed.FinishPriming` | src/bridges/audio/feed.c:143-156 | the worker's answer ends the command |
| `FeedLoop.AudioFeed.TakeSeek` | src/bridges/audio/feed.c:179-185 | the worker takes the command with its target and the position to go back to |
| `FeedLoop.AudioFeed.ResetAfterSeek` | src/bridges/audio/feed.c:193-202 | the queue is emptied, the position is the codec's own, and the loop mode is the new one only after success |
| `FeedLoop.AudioFeed.ResetAfterOpen` | src/bridges/audio/feed.c:165-174 | the queue is emptied at the start of the new stream |
| `FeedLoop.AudioFeed.RequestMove` | src/bridges/audio/feed.c:320-342 | a command is posted unless the feed is already there |
| `FeedLoop.AudioFeed.SeekRequest` | src/bridges/audio/feed.c:377-389 | the model's seek request |
| `FeedLoop.AudioFeed.StartRequest` | src/bridges/audio/feed.c:391-408 | the model's start request |
| `FeedLoop.AudioFeed.OpenRequest` | src/bridges/audio/feed.c:356-375 | the model's open request |
| `FeedLoop.AudioFeed.Answer` | src/bridges/audio/feed.c:326-404 | the answer is the worker's, and a started feed becomes active only with it |
| `FeedLoop.AudioFeed.ReadFeed` | src/bridges/audio/feed.c:422-467 | nothing while a command is pending, otherwise the model's read; the end only behind the last frame |
| `FeedLoop.RoomForTheBlock` | src/bridges/audio/feed.c:112-141 | in every run the ring has room for the block the worker brings |
| `MemoryPages.UnmapView` | src/bridges/libc/memory.c:421-446 | unmapping removes exactly the pages of the range from the page map |
| `MemoryPages.UnmapSound` | src/bridges/libc/memory.c:421-446 | it keeps live counts, ownership of descriptors and disjoint storage; a mapping goes exactly with its last page |
| `MemoryPages.FreshIsZero` | src/bridges/libc/memory.c:141-219 | a page that no file backs holds zeros |
| `MemoryPages.ViewUpdate` | src/bridges/libc/memory.c:141-219 | replacing one mapping changes the page map inside its storage only |
| `Memory.Populate` | src/bridges/libc/memory.c:141-219 | pages are filled one by one with the file's bytes at their offset or with zeros, up to the first failure |
| `Memory.AddView` | src/bridges/libc/memory.c:221-257 | a new mapping adds its pages and changes nothing else |
| `Memory.DeadPagesDoNotShow` | src/bridges/libc/memory.c:141-219 | refilling storage behind retired pages is invisible |
| `Memory.RevivedView` | src/bridges/libc/memory.c:523-541 | reviving a filled tail adds exactly those pages |
| `Memory.TailIsGrowth` | src/bridges/libc/memory.c:523-541 | growing in place leaves the old range untouched and fills the new tail from where the mapping's file position says |
| `Memory.MovedIn` | src/bridges/libc/memory.c:552-567 | a replacement mapping holds the old pages in order, then fresh ones |
| `Memory.MovedOut` | src/bridges/libc/memory.c:568-572 | retiring the old range afterwards completes the move |
| `Memory.Registry.Create` | src/bridges/libc/memory.c:221-257 | a filled mapping owning its own descriptor, or nothing kept |
| `Memory.Registry.Map` | src/bridges/libc/memory.c:259-329 | the checks in the source's order; success maps exactly the new range, with the protection asked for, to the file from the offset on or to zeros; failure nothing |
| `Memory.Registry.RetirePages` | src/bridges/libc/memory.c:431-437 | one mapping loses exactly its pages in the range, and `active_pages` stays exact |
| `Memory.Registry.UnmapList` | src/bridges/libc/memory.c:421-446 | the walk leaves the list without retired pages and empty mappings |
| `Memory.Registry.Unmap` | src/bridges/libc/memory.c:421-446 | exactly the pages of the range leave the page map |
| `Memory.Registry.Munmap` | src/bridges/libc/memory.c:448-461 | argument errors change nothing; otherwise exactly the tracked pages of the range go |
| `Memory.Registry.GrowTail` | src/bridges/libc/memory.c:523-541 | the tail is filled and revived, all or nothing |
| `Memory.Registry.MoveRange` | src/bridges/libc/memory.c:552-572 | the move is complete or nothing changed, descriptors included |
| `Memory.Registry.Grow` | src/bridges/libc/memory.c:509-572 | grows in place exactly when the tail is retired and can be filled, otherwise moves exactly when it may and a replacement can be made |
| `Memory.Registry.Resolve` | src/bridges/libc/memory.c:463-498 | finds the one mapping that holds the old range with every page live |
| `Memory.Registry.Resize` | src/bridges/libc/memory.c:497-573 | of a range that is held live: shrinking unmaps exactly its end, growing succeeds exactly when it is possible in place or by a move, and failure keeps every live page |
| `Memory.Registry.Mremap` | src/bridges/libc/memory.c:463-573 | succeeds exactly when one mapping holds the whole old range live and the new length is no larger or can be had; success shrinks, keeps, grows in place exactly where there is room and otherwise moves; new pages have the mapping's own protection; failure at any point leaves live pages, contents, protections and owned descriptors as they were |
| `MemoryCalls.SupportedExactly` | src/bridges/libc/memory.c:274-300 | `mmap` serves exactly private mappings to read, or to read and write, without a fixed place; the flags that only advise are let pass, and no other |
| `MemoryCalls.ArgumentsExactly` | src/bridges/libc/memory.c:463-475 | `mremap` takes exactly a page-aligned address, two sizes that round to pages below half the address space, an old range that ends in it, and no flag but MREMAP_MAYMOVE |
| `MemoryCalls.ReadableExactly` | src/bridges/libc/memory.c:141-219 | a stretch is filled exactly when none of the calls fails that it needs: the file's descriptor, and for every page of it one read at its offset and one copy |
| `MemoryCalls.CreatableExactly` | src/bridges/libc/memory.c:221-257 | a mapping is made exactly when none of its calls fails |
| `MemoryCalls.HoldsLiveExactly` | src/bridges/libc/memory.c:478-498 | a mapping holds a range live exactly when its storage covers the range and every page of it is in the page map |
| `MemoryCalls.PagesSeen` | src/bridges/libc/memory.c:421-521 | page flags by index are the page map by address |
| `MemoryCalls.RoomExactly` | src/bridges/libc/memory.c:514-541 | a range can stay in place exactly when one storage covers its new length with no live page behind it |
| `MemoryCalls.RemapsExactly` | src/bridges/libc/memory.c:478-572 | `mremap` of a valid range succeeds exactly when one mapping's storage covers it, every page of it is live, and it gets no longer or can grow: the file position stays in range, and none of the calls fails that growing in place makes, if there is room, or else that moving makes, if it may move |
| `Mp3Position.SequentialOnTrack` | src/bridges/audio/mp3.c:362-382 | sequential playback stays in phase, `source*48000 + phase == output*rate`, until the end |
| `Mp3Position.SequentialIsExact` | src/bridges/audio/mp3.c:362-382 | `n` calls reach source frame `n*rate/48000` with phase `n*rate%48000` |
| `Mp3Position.OnTrackIsSequential` | src/bridges/audio/mp3.c:389-411 | an in-phase position is the one sequential playback reaches by its own count, also at the end |
| `Mp3Position.JumpStays` | src/bridges/audio/mp3.c:394-407 | a jump within the allowed room never passes the end of the decoded frame, a full one lands on it, and the phase stays right |
| `Mp3Position.SplitProduct` | src/bridges/audio/mp3.c:446-449 | the split multiplication is exact |
| `Mp3Position.EntryOnTrack` | src/bridges/audio/mp3.c:469-475 | entering at the frame that holds the target is in phase and not past the target |
| `Mp3Position.LoopIsVisible` | src/bridges/audio/mp3.c:362-382 | a looped position rises by one or falls on every step if and only if `total > 1` or `rate < 48000` |
| `Mp3Position.SeekArithmeticFits` | src/bridges/audio/mp3.c:440-477 | no 64-bit product of the seek wraps |
| `Mp3.NextFrame` | src/bridges/audio/mp3.c:278-294 | whether a complete frame stands at the file position is whether the file has one more frame |
| `Mp3.Stream.Reset` | src/bridges/audio/mp3.c:259-276 | back at the first frame, or nothing changed |
| `Mp3.StrictOffset` | src/bridges/audio/mp3.c:278-294 | a frame the index found where it stands is where the stream, which also skips junk, reads it |
| `Mp3.Bounds` | src/bridges/audio/mp3.c:278-345 | the file is read at its end exactly when the position is the end of the source frames, and a frame can be read exactly before it |
| `Mp3.LoadedKeeps` | src/bridges/audio/mp3.c:318-345 | a frame read into the buffer leaves the position where it was |
| `Mp3.PassedKeeps` | src/bridges/audio/mp3.c:318-345 | so does a refused frame, which is behind the position from then on |
| `Mp3.BufferIsSource` | src/bridges/audio/mp3.c:296-370 | what the buffer holds is the source frame the position and the refused frames name |
| `Mp3.JumpedKeeps` | src/bridges/audio/mp3.c:394-407 | a jump within the decoded frame stays in phase |
| `Mp3.StepIsJump` | src/bridges/audio/mp3.c:371-379 | one output frame is one step of the resampler over the file without its refused frames |
| `Mp3.SequentialThere` | src/bridges/audio/mp3.c:389-411 | a place in phase is where sequential playback gets by its own count, also at the end |
| `Mp3.Stream.DecodeNext` | src/bridges/audio/mp3.c:318-345 | the next frame in the buffer exactly while the file has one that is not refused; a refused one is passed over and fails the stream; at the end nothing moves |
| `Mp3.Stream.Ensure` | src/bridges/audio/mp3.c:347-360 | without looping the position never moves; with looping the end leads back to the start; a refused frame is passed over, fails the stream and leaves the position short by it |
| `Mp3.Stream.AdvanceOne` | src/bridges/audio/mp3.c:371-379 | one step of the resampler |
| `Mp3.Stream.NextSample` | src/bridges/audio/mp3.c:362-382 | one step of sequential playback, emitting the source frame it stands on; at a refused frame one call answers false, or the one before has already passed it, and playback goes on behind it with the position short by it |
| `Mp3.Stream.SkipChunk` | src/bridges/audio/mp3.c:394-407 | one turn of the skip keeps the position in phase |
| `Mp3.Stream.SkipTo` | src/bridges/audio/mp3.c:389-411 | the fast skip ends exactly where single steps would, also at the end of the file; it fails only at a refused frame or a cut-off tail |
| `Mp3.Stream.WarmUp` | src/bridges/audio/mp3.c:413-467 | after a warm-up, good or not, the file is read at the target frame |
| `Mp3.Stream.EnterAt` | src/bridges/audio/mp3.c:469-476 | entering at the frame that holds the target is in phase and not past it |
| `Mp3.Stream.SeekIndex` | src/bridges/audio/mp3.c:440-477 | through the index's own search and warm-up: success is where `position` single steps from the start would end; failure has failed, has lost the place, or moved nothing |
| `Mp3.Stream.SeekFrames` | src/bridges/audio/mp3.c:479-515 | a seek that answers true is where `position` single steps of the whole file would end if it goes back or more than a second ahead, or if no frame of the file is refused and no seek was denied since; otherwise exactly unless it was stale; a denied one restores the audible position if the codec allows; without refusals every seek succeeds |
| `Mp3.Stream.Move` | src/bridges/audio/mp3.c:499-514 | over from the start, if asked for, and on; after a failure back to where it was |
| `Mp3.StaleOnlyAfter` | src/bridges/audio/mp3.c:278-515 | a stream gets stale only by playing a file with refused frames to its end, which forgets the failure, or by a denied seek |
| `Mp3.StaleSeek` | src/bridges/audio/mp3.c:278-515 | it does get stale: after a file whose only frame is refused has been played to its end, a seek to the start answers true and reads nothing |
| `Mp3Index.BoundaryUnique` | src/bridges/audio/mp3_index.c:117-131 | a target has at most one boundary: the latest frame at or before target-4 that fills the reservoir |
| `Mp3Index.ReservoirReaches` | src/bridges/audio/mp3_index.c:117-131 | the reservoir is exactly as far as a frame's side information can refer back: nine bits in MPEG version 1, eight in the others |
| `Mp3Index.FillsExactly` | src/bridges/audio/mp3_index.c:117-127 | a frame is far enough back exactly if, in the stream of all payloads, two frames before the target nothing is referred to that lies before it |
| `Mp3Index.AnswersUnique` | src/bridges/audio/mp3_index.c:134-172 | a file has one answer for a target |
| `Mp3Index.Index.Scan` | src/bridges/audio/mp3_index.c:65-90 | `offsets[k]` stays the byte offset of frame 32k; scanning succeeds exactly when the target frame is there |
| `Mp3Index.Index.ReadWindow` | src/bridges/audio/mp3_index.c:94-115 | offsets and payloads of the sixteen frames before the target |
| `Mp3Index.Index.Locate` | src/bridges/audio/mp3_index.c:92-132 | finds the boundary frame, and none only when no frame of the window fills the reservoir |
| `Mp3Index.Find` | src/bridges/audio/mp3_index.c:134-172 | with or without the cache the answer is the file's own, also when file positions cannot be saved or restored: then there is none, and the index is blocked |
| `Mp3Index.Preroll` | src/bridges/audio/mp3.c:413-438 | the warm-up succeeds exactly when the last two frames decode, its payload test never failing, and it ends at the target frame's offset |
| `Mp3Index.MarkCache.Get` | src/bridges/audio/mp3_marks.c:19-43 | a hit returns what an uncached search of the same file would |
| `Mp3Index.MarkCache.Put` | src/bridges/audio/mp3_marks.c:45-59 | rows are overwritten in turn and stay truthful |
| `Mp3Index.MarkCache.Clear` | src/bridges/audio/mp3_marks.c:61-67 | an empty cache |
| `Vorbis.PlaybackIsExact` | src/bridges/audio/stream.c:86-223 | a file plays exactly `ceil(total*48000/rate)` frames, and frame `n` is source frame `n*rate/48000`, for rates up to 192000 |
| `Vorbis.SeekIsPlayback` | src/bridges/audio/stream.c:106-124 | a seek computes the position that many frames of playback reach, at the end the end |
| `Vorbis.SeekArithmeticFits` | src/bridges/audio/stream.c:68-124 | no 64-bit product wraps for the files that are opened |
| `Vorbis.Stream.SeekVorbis` | src/bridges/audio/stream.c:106-124 | a seek the library allows places the stream; another changes nothing |
| `Vorbis.Stream.SeekFrames` | src/bridges/audio/stream.c:126-146 | a failed seek whose restore succeeds leaves the audible position as it was, otherwise the stream fails |
| `Vorbis.Stream.Ensure` | src/bridges/audio/stream.c:158-193 | a decoded frame under the cursor; the position moves only by a wrap, and it fails only at a broken place or too many holes |
| `Vorbis.Stream.PassFrames` | src/bridges/audio/stream.c:213-222 | the phase loop passes the source frames one by one, across chunks, up to the end |
| `Vorbis.Stream.NextSample` | src/bridges/audio/stream.c:195-223 | one step of playback with the frame it stands on; looping leads from the end to the start |
| `ReferenceTable.ReserveKeeps` | src/bridges/jni/references.c:70-85 | reserving more slots keeps the table consistent and moves no existing slot |
| `ReferenceTable.LinkLocalKeeps` | src/bridges/jni/references.c:128-164 | a new local reference goes into a free slot of the current frame |
| `ReferenceTable.DeleteKeeps` | src/bridges/jni/references.c:166-192 | deleting keeps slots, list and ownership in step |
| `ReferenceTable.PopFrameKeeps` | src/bridges/jni/references.c:194-216 | popping a frame keeps the table consistent |
| `References.OpKeeps` | src/bridges/jni/references.c:70-269 | every call keeps the table consistent |
| `References.EveryRunIsConsistent` | src/bridges/jni/references.c:70-269 | after any calls by any threads no reference is listed twice, every listed one is live, and the owned ones are exactly the used slots of their owners' frames |
| `References.PopRemovesExactly` | src/bridges/jni/references.c:194-216 | popping removes exactly the frame's live references, from the list and from memory |
| `References.CleanupLeavesNothing` | src/bridges/jni/references.c:258-269 | a thread that has cleaned up owns nothing |
| `References.EnsureMakesRoom` | src/bridges/jni/references.c:108-126 | after success there is room for `n` in the current frame |
| `References.RoomSuffices` | src/bridges/jni/references.c:108-164 | the next `n` locals then succeed without allocation, move no slot and change no earlier reference |
| `References.BoundaryHolds` | src/bridges/jni/references.c:218-242 | no call gets below a native boundary, and calls keep count of the nested native calls above it |
| `References.LeaveReturns` | src/bridges/jni/references.c:235-242 | leaving pops back to exactly the caller's frames |
| `References.NativeCallRestores` | src/bridges/jni/references.c:225-242 | after any native body, with native calls nested in it to any depth and calls of other threads between, the caller has its exact frames and every reference in them that the body did not delete |
| `ReferenceCalls.PushIsExact` | src/bridges/jni/references.c:87-233 | a push puts one frame of empty slots on the thread's own, marked exactly for a native call, or changes nothing: exactly with a negative capacity or without memory |
| `ReferenceCalls.PopIsExact` | src/bridges/jni/references.c:218-223 | a pop takes the top frame and exactly its references, from the live ones and from memory; at a native boundary, or without a frame, nothing changes |
| `ReferenceCalls.LeaveIsExact` | src/bridges/jni/references.c:235-242 | leaving takes the frames down to and with the newest boundary and exactly their references |
| `ReferenceCalls.CleanupIsExact` | src/bridges/jni/references.c:258-269 | cleaning up takes all frames of the thread and exactly what it owned |
| `ReferenceCalls.EnsureIsExact` | src/bridges/jni/references.c:108-126 | ensuring room makes a first frame of 32 slots, or as many as asked for, or adds a block to the top one exactly when it has too few free; no live reference changes |
| `ReferenceCalls.LocalIsExact` | src/bridges/jni/references.c:128-164 | a new local reference is one more, of the calling thread and in its top frame, with the object asked for; none exactly without an object or room |
| `ReferenceCalls.GlobalIsExact` | src/bridges/jni/references.c:145-164 | a new global reference is one more, of nobody; none exactly without an object or memory |
| `ReferenceCalls.DeleteIsExact` | src/bridges/jni/references.c:181-192 | deleting takes exactly the reference asked for, if it is live, of that kind, and the caller's or nobody's; otherwise nothing changes |
| `ReferenceCalls.ClearIsExact` | src/bridges/jni/references.c:244-256 | clearing takes exactly the references nobody owns |
| `ReferenceCalls.MemoryMayAnswer` | src/bridges/jni/references.c:70-85 | in no state is a call shut out: the allocator always has slots to answer with, and may always refuse |
| `ReferenceCalls.PushPopRestores` | src/bridges/jni/references.c:87-223 | a push, any calls that pop no more than they push, locals among them, and a pop give the thread its frames back, with every reference in them that was not deleted |
| `ReferenceList.ThreadedCut` | src/bridges/jni/references.c:166-179 | cutting one record out of the links leaves them spelling out the rest |
| `ReferenceList.List.Find` | src/bridges/jni/references.c:34-43 | the walk finds an address exactly when it is listed |
| `ReferenceList.List.UnlinkRef` | src/bridges/jni/references.c:166-179 | the links are redirected and the record marked invalid: the table model's unlink |
| `ReferenceList.List.LinkRef` | src/bridges/jni/references.c:157-163 | a filled record becomes the head of the list |
| `ReferenceList.List.DeleteRef` | src/bridges/jni/references.c:181-192 | the table model's delete, on the links |
| `ReferenceList.List.PopCurrent` | src/bridges/jni/references.c:194-216 | the table model's pop, on the links |
| `ReferenceList.List.PopRefs` | src/bridges/jni/references.c:218-223 | the pop that stops at a boundary, on the links |
| `ReferenceList.List.PushRefs` | src/bridges/jni/references.c:87-233 | a push, ordinary or native, with its refusals |
| `ReferenceList.List.NewGlobalRef` | src/bridges/jni/references.c:145-164 | a global reference becomes the head of the list |
| `ReferenceList.List.ClearGlobalRefs` | src/bridges/jni/references.c:244-256 | the walk cuts out exactly the records nobody owns |
| `ReferenceList.List.LeaveNativeCall` | src/bridges/jni/references.c:235-242 | the loop to the boundary is the table model's leave |
| `ReferenceList.List.CleanupFrames` | src/bridges/jni/references.c:258-269 | the frame loop is the table model's cleanup |
| `ReferenceList.List.NewLocalRef` | src/bridges/jni/references.c:128-164 | makes room if needed and links the first free slot |
| `ReferenceList.List.EnsureRefs` | src/bridges/jni/references.c:108-126 | the table model's ensure, with its counting loop |
| `ThreadProtocol.StepKeeps` | src/bridges/jni/thread.c:14-240 | every step of every thread keeps the invariant |
| `ThreadProtocol.Others` | src/bridges/jni/thread.c:14-240 | no step changes how another thread stands, except by waking it |
| `ThreadProtocol.OwnStep` | src/bridges/jni/thread.c:59-240 | the acting thread keeps its depth, calls and place in agreement with the mutex |
| `ThreadProtocol.SettledRemoved` | src/bridges/jni/thread.c:14-32 | removing a thread keeps the list exact, the cleanup count right and no destroyer asleep in vain |
| `Thread.RunKeepsInvariant` | src/bridges/jni/thread.c:14-240 | the invariant holds at every moment of every run |
| `Thread.MutexIsDepth` | src/bridges/jni/thread.c:59-240 | an awake attached thread has the mutex exactly when its depth is positive; a waiting one has not, and a native body runs at depth 0 inside a call |
| `Thread.NestingRestores` | src/bridges/jni/thread.c:93-141 | back at the same nesting a thread has the depth and the calls it had, whatever ran inside |
| `Thread.ResumeRestores` | src/bridges/jni/thread.c:93-106 | resuming brings back the depth of the call around the native body |
| `Thread.DetachReleases` | src/bridges/jni/thread.c:188-204 | detaching frees the mutex; the thread held it before if and only if its depth was positive |
| `Thread.ClosedForever` | src/bridges/jni/thread.c:149-240 | once a destroyer is set no new thread ever attaches |
| `Thread.DestroyedMeansAlone` | src/bridges/jni/thread.c:113-240 | a destroyed machine has no user thread but the one destroying it, and no enter, attach or destroy succeeds |
| `Thread.DestroyCompletes` | src/bridges/jni/thread.c:222-240 | the detachment that ends a destruction always succeeds |
| `Thread.CleanedUpOnce` | src/bridges/jni/thread.c:14-32 | the machine is cleaned up at most once, exactly when it is destroyed and the last thread is gone |
| `Thread.DestroyerSleepsForSomebody` | src/bridges/jni/thread.c:211-240 | a destroyer that was not woken still has a user thread to wait for, and with none left it completes |
| `Thread.Runtime.TakeMutex` | src/bridges/jni/thread.c:59-71 | the recursive lock on the fields |
| `Thread.Runtime.GiveMutex` | src/bridges/jni/thread.c:73-86 | the recursive unlock on the fields |
| `Thread.Runtime.EnterCall` | src/bridges/jni/thread.c:113-128 | the protocol's enter step, with its refusal |
| `Thread.Runtime.LeaveCall` | src/bridges/jni/thread.c:130-141 | the protocol's leave step, collecting exactly when the last call or a call from an unlocked native body ends |
| `Thread.Runtime.SuspendCall` | src/bridges/jni/thread.c:93-100 | the protocol's suspend step, returning the depth |
| `Thread.Runtime.ResumeCall` | src/bridges/jni/thread.c:102-106 | the protocol's resume step |
| `Thread.Runtime.RemoveThread` | src/bridges/jni/thread.c:14-32 | the walk unlinks exactly the thread, cleans up after the last one and wakes everybody |
| `Thread.Runtime.ThreadExited` | src/bridges/jni/thread.c:34-39 | thread exit removes the thread |
| `Thread.Runtime.HasUserThread` | src/bridges/jni/thread.c:211-220 | the walk decides whether another user thread is attached |
| `Thread.Runtime.AttachThread` | src/bridges/jni/thread.c:149-186 | the protocol's attach step, with refusals and failed allocations |
| `Thread.Runtime.DetachThread` | src/bridges/jni/thread.c:188-204 | refused exactly inside a call; otherwise the thread is gone |
| `Thread.Runtime.DestroyMachine` | src/bridges/jni/thread.c:222-234 | the protocol's destroy step up to its first wait or its detachment |
| `Thread.Runtime.WakeDestroyer` | src/bridges/jni/thread.c:232-238 | the protocol's waking of the destroyer |
| `ThreadCalls.EnterDecides` | src/bridges/jni/thread.c:113-128 | in every reachable state a call is entered exactly by the attached thread whose environment it is, on a machine that is not destroyed, one level deeper and with the mutex; a top-level call gets a new serial |
| `ThreadCalls.LeaveDecides` | src/bridges/jni/thread.c:130-141 | leaving takes one call and one level back and gives the mutex up exactly with the last level |
| `ThreadCalls.SuspendDecides` | src/bridges/jni/thread.c:93-106 | a native body runs without the mutex at depth 0, and resuming brings back the mutex and the record as it was |
| `ThreadCalls.AttachDecides` | src/bridges/jni/thread.c:149-186 | a thread attaches exactly when it is not attached, there is memory and nobody destroys the machine or has done so: as the daemon or user thread it asked to be, with nothing open |
| `ThreadCalls.RemovedIsGone` | src/bridges/jni/thread.c:14-32 | a removed thread is gone and nothing else changes, except that every waiter is woken; the last one to go from a destroyed machine cleans it up |
| `ThreadCalls.DetachDecides` | src/bridges/jni/thread.c:34-204 | a thread detaches exactly when it is attached and has no call open; at exit it goes in any case |
| `ThreadCalls.DestroyDecides` | src/bridges/jni/thread.c:211-240 | exactly an attached thread without an open call destroys the machine, if nobody else does: at once as the only user thread, otherwise it waits without the mutex |
| `ThreadCalls.LockDecides` | src/bridges/jni/thread.c:59-71 | the runtime lock is recursive: taking it is one level deeper |
| `ThreadCalls.UnlockDecides` | src/bridges/jni/thread.c:73-86 | giving it back is one level less, and the last level gives the mutex up |
| `ThreadCalls.DestructionGoesOn` | src/bridges/jni/thread.c:222-240 | a destroyer that wakes waits on while there is another user thread, and otherwise the machine is destroyed |
| `ThreadCalls.DestroyerDetaches` | src/bridges/jni/thread.c:222-240 | then it detaches like any other thread |
| `ThreadCalls.WaitDecides` | src/bridges/jni/thread.c:59-240 | waiting gives the mutex up, going on takes it again, and a notification wakes every waiter |
| `ThreadCalls.OnlyTheMutexBlocks` | src/bridges/jni/thread.c:59-240 | no state is a deadlock: nothing but the mutex makes a thread wait, and whoever has the mutex can go on |
| `Descriptor.OneTypeOnly` | src/bridges/jni/descriptor.c:5-63 | a text starts with at most one type |
| `Descriptor.BracketsAreDimensions` | src/bridges/jni/descriptor.c:8-16 | whatever type stands at the cursor, the brackets are its dimensions and its leaf follows them |
| `Descriptor.ParseType` | src/bridges/jni/descriptor.c:5-63 | succeeds exactly when an allowed type stands at the cursor, consumes it and reports its erased code |
| `Descriptor.SigParse` | src/bridges/jni/descriptor.c:65-104 | accepts exactly the method descriptors (JVM specification, sections 4.3.2 and 4.3.3) of at most 255 slots and 255 dimensions, and fills in the arguments, slots and result of the one signature denoted |
| `Descriptor.TypeParse` | src/bridges/jni/descriptor.c:106-121 | accepts exactly the field types |
| `Descriptor.DenotesOne` | src/bridges/jni/descriptor.c:65-104 | a descriptor denotes one signature |
| `DescriptorTexts.FieldsExactly` | src/bridges/jni/descriptor.c:5-121 | a text is a field descriptor exactly if it is at most 255 brackets before one of B, C, D, F, I, J, S and Z, or before an L, a name without any of `. ( [ )` and a semicolon |
| `DescriptorTexts.MethodsExactly` | src/bridges/jni/descriptor.c:65-104 | a text is a method descriptor exactly if it is field descriptors of at most 255 slots in parentheses, and a field descriptor or a V behind them |
| `DescriptorTexts.ErasedByText` | src/bridges/jni/descriptor.c:57-92 | a call sees a base type as its letter and every reference as L; only J and D alone take two slots |
| `NativeCall.MemberIsExact` | src/bridges/jni/native_call.c:88-130 | the member a type code selects is the value the union holds, as wide and as signed as the Java Native Interface makes the type: exactly the value whose bytes it has, whatever stands behind them |
| `NativeCall.PackedPlaces` | src/bridges/jni/native_call.c:80-130 | every argument lies whole where the allocator of AAPCS32, section 6.5, stage C puts it; none is split between r3 and the stack |
| `NativeCall.CalleeGetsArguments` | src/bridges/jni/native_call.c:80-130 | a callee reading each parameter by that standard gets the member of the union that was passed |
| `NativeCall.InOrder` | src/bridges/jni/native_call.c:80-130 | parameters never overlap, wide ones start at even words, and no register is filled after the stack is used |
| `NativeCall.Put` | src/bridges/jni/native_call.c:88-129 | one turn of the loop appends the argument, padded to an even word when wide |
| `NativeCall.PackInto` | src/bridges/jni/native_call.c:82-130 | the loop packs exactly the model's words, and refuses exactly at an unknown type code |
| `NativeCall.Pack` | src/bridges/jni/native_call.c:73-134 | refuses exactly bad handles, missing arguments or unknown codes; otherwise at most `2 + 2*argc` words and zeros behind them |
| `NativeCall.ResultComesBack` | src/bridges/jni/native_call.c:136-173 | a result the callee left in r0 and r1 is the member the caller reads |
| `NativeCall.UnpackExactly` | src/bridges/jni/native_call.c:136-173 | of r0 a narrow result takes its own bytes, only a wide one takes r1, and a call without a result leaves none |
| `NativeCall.AcceptedIsCallable` | src/bridges/jni/native_call.c:6-134 | every signature the parser accepts is called, if the arguments it has are given |
| `NativeCall.CodesExactly` | src/bridges/jni/native_call.c:88-134 | the type codes that a call may have, letter by letter |
| `NativeCall.RefusedExactly` | src/bridges/jni/native_call.c:6-24 | what is not called: no procedure, no signature, no place for the result, more than 255 arguments, or some that are not given |
| `Relocation.TwoStepsAreOne` | src/loader/image.c:9-38 | the internal and then the external rewriting of a word is the one-shot operation S+A, B+A or S |
| `Relocation.TypesByNumber` | src/loader/image.c:9-38 | the Arm ELF specification's numbers: 0, 2, 21, 22 and 23 are accepted and no other, and give the word itself, S+A, S, S and B+A |
| `Relocation.PassedAt` | src/loader/image.c:132-158 | when words are disjoint a pass rewrites each once, from what it held before |
| `Relocation.PassedOutside` | src/loader/image.c:132-158 | a pass leaves every other byte alone |
| `Relocation.OneShotEverywhere` | src/loader/image.c:132-158 | after both passes every relocated word holds its one-shot value, with S = 0 for an unresolved weak symbol |
| `Relocation.OnlyWordsChange` | src/loader/image.c:132-158 | nothing else changes |
| `Relocation.OrderDoesNotMatter` | src/loader/image.c:132-158 | the order of the relocations makes no difference to the memory |
| `Relocation.RelocateOne` | src/loader/image.c:9-156 | accepts exactly known symbols and types with a granted copy, and writes the internal value |
| `Relocation.LoadSection` | src/loader/image.c:138-157 | one section is a stretch of the pass |
| `Relocation.LoadRelocations` | src/loader/image.c:132-158 | succeeds exactly when every relocation is acceptable and every copy granted; the memory is the internal pass |
| `Relocation.BindOne` | src/loader/relocation.c:112-166 | writes the external value and counts exactly the refused symbols |
| `Relocation.BindSection` | src/loader/relocation.c:109-167 | one section is a stretch of the external pass |
| `Relocation.Bind` | src/loader/relocation.c:93-178 | succeeds exactly when no required relocated import is missing and every copy is granted; the memory is the external pass |
| `Relocation.OnlyMissingRefused` | src/loader/relocation.c:116-159 | after an accepted internal pass the index test and the unknown-type branch never fire |
| `ElfImage.CheckSegments` | src/loader/validation.c:81-143 | accepts exactly segments within the file and the span, aligned, pairwise on different pages, one to sixteen of them |
| `ElfImage.ApartFrom` | src/loader/validation.c:121-139 | the inner loop decides whether a segment shares a page with an earlier one |
| `ElfImage.CheckMapped` | src/loader/validation.c:25-36 | decides whether one loaded segment covers the range |
| `ElfImage.SameName` | src/loader/validation.c:168-188 | `strcmp` against a name, never reading past a terminated text |
| `ElfImage.LoadsGrow` | src/loader/validation.c:86-119 | the count of mapped segments only grows |
| `RelocationCalls.EntriesExactly` | src/loader/image.c:132-140 | the relocations of the passes are exactly those of the sections `.rel.dyn` and `.rel.plt` |
| `RelocationCalls.WritesExactly` | src/loader/image.c:9-38 | the first pass asks for a copy exactly where it has a word to set, and other words stay as they are |
| `RelocationCalls.MissingExactly` | src/loader/relocation.c:112-137 | an import is missing exactly if an accepted relocation needs the address of a symbol that is neither in the library nor found elsewhere, and that is not weak |
| `ElfRecords.ProgramIsRead` | src/loader/validation.c:81-96 | a program header laid out as chapter 5 of the System V ABI says is read field by field |
| `ElfRecords.SectionIsRead` | src/loader/validation.c:145-167 | a section header likewise, by chapter 4 |
| `ElfRecords.SymbolIsRead` | src/loader/validation.c:203-221 | a symbol likewise |
| `ElfRecords.RelocationIsRead` | src/loader/validation.c:239-252 | a relocation likewise, its symbol in the upper 24 bits and its type in the lower eight |
| `ElfRecords.HeaderIsRead` | src/loader/validation.c:38-60 | an ELF header of a 32-bit little-endian shared object for Arm is identified as one, and its tables are where it says |
| `ElfCheck.Classify` | src/loader/validation.c:168-188 | at most one of the name rules applies |
| `ElfCheck.CheckSections` | src/loader/validation.c:145-201 | accepts exactly sections within the file with terminated names, one symbol table linked to the one string table, and arrays inside a segment |
| `ElfCheck.CheckSymbols` | src/loader/validation.c:203-221 | accepts exactly tables whose names are terminated strings and whose sections exist |
| `ElfCheck.CheckRels` | src/loader/validation.c:239-252 | accepts exactly a section whose records name known symbols and whose words lie in a segment |
| `ElfCheck.CheckAllRels` | src/loader/validation.c:223-256 | the same for every relocation section |
| `ElfCheck.CheckImage` | src/loader/validation.c:258-278 | accepts exactly the images that satisfy all of this, with their only symbol and string tables |
| `ElfCheck.OneView` | src/loader/validation.c:191-200 | the tables are determined by the image |
| `ElfAccepts.AcceptedExactly` | src/loader/validation.c:38-278 | an image is accepted, with its tables, exactly if header, segments, sections, symbols and relocations are as the rows below say |
| `ElfAccepts.HeaderIs` | src/loader/validation.c:38-79 | the header is accepted exactly if it is identified, has a program header, a name table among its sections, and both tables aligned to four and in the file |
| `ElfAccepts.AlignedIs` | src/loader/validation.c:105-111 | an alignment is accepted exactly if it is at most 1, or a power of two modulo which address and offset agree |
| `ElfAccepts.NoPageSharedIs` | src/loader/validation.c:121-139 | two segments are apart exactly if no page holds a byte of both |
| `ElfAccepts.SegmentsAre` | src/loader/validation.c:81-143 | segments are accepted exactly if each is in the file, not larger there than in memory, below 384 MB and aligned, one to sixteen are mapped, and no two share a page |
| `ElfAccepts.SectionsAre` | src/loader/validation.c:145-201 | sections are accepted exactly if the name table is a string table, every section is in the file unless it has no bytes there, every name is a string of the table, one symbol table of 16-byte records names the one string table, and arrays are words in the memory of a segment |
| `ElfAccepts.SymbolsAre` | src/loader/validation.c:203-221 | symbols are accepted exactly if every name is a string of the string table and every section is in the file or absolute |
| `ElfAccepts.AllRelsAre` | src/loader/validation.c:223-256 | relocations are accepted exactly if their sections hold 8-byte records for the symbol table, and every record names a symbol of it and changes, if anything, a word in the memory of a segment |
| `ElfLoad.Window` | src/loader.c:141-186 | the window holds every segment and stays below the address limit; the kernel's block is the only reason to refuse |
| `ElfCalls.PlacedExactly` | src/loader/image.c:91-96 | a segment is in place exactly if its bytes of the file stand at its address and zeros elsewhere on its pages |
| `ElfCalls.GrantedExactly` | src/loader/image.c:67-89 | the segments are loaded exactly if the kernel maps the block of every mapped segment |
| `ElfCalls.SpanExactly` | src/loader/image.c:102-108 | the window is as large as the last page of the mapped segments asks, and no larger |
| `ElfLoad.PlaceSegment` | src/loader/image.c:91-96 | the segment's pages hold its file bytes and zeros, and no other byte changes |
| `ElfLoad.LoadSegments` | src/loader/image.c:48-108 | stops only where the kernel refuses; the segment count, size and address checks never fire; afterwards every segment's bytes are in place |
| `ElfLoad.FindTables` | src/loader/image.c:110-130 | finds the tables the validator found |
| `ElfLoad.MappedInside` | src/loader/image.c:132-158 | a range the validator saw in a segment lies on the pages of one loaded segment, and in the window |
| `ElfLoad.ArraysInside` | src/loader/image.c:122-125 | the constructor and destructor arrays lie on the pages of one loaded segment |
| `ElfLoad.SymbolNamesInFile` | src/loader/image.c:132-158 | every symbol name read later is a string in the file |
| `ElfLoad.SymbolsMeanTheTable` | src/loader/image.c:132-158 | the symbols the passes use are the table's: an undefined one is nowhere, an absolute one at its value, and any other is of a section of the image and moves with the library; weak exactly by its binding |
| `ElfLoad.EveryRelocationFits` | src/loader/image.c:132-158 | what the relocation passes assume holds of every accepted image with these symbols, wherever it is placed, so their own index tests never fire; every word they write lies on the pages of one loaded segment |
| `ExitCallbacks.CallShrinks` | src/bridges/libc/cxx.c:68-83 | each call takes one callback out and can only lead to what it would register |
| `ExitCallbacks.FinalizedDrains` | src/bridges/libc/cxx.c:51-85 | nothing asked for is left, and what ran and what can still run is what could run before: exactly once, also with finalizations started by callbacks |
| `ExitCallbacks.PerformConserves` | src/bridges/libc/cxx.c:68-83 | running code conserves the callbacks: what ran meanwhile and what can still run is what it registers and what could run before |
| `ExitCallbacks.OthersStay` | src/bridges/libc/cxx.c:51-66 | what neither the call nor anything it runs asks for stays registered |
| `ExitCallbacks.PerformAppend` | src/bridges/libc/cxx.c:68-83 | code that runs after other code continues with the callbacks it left |
| `ExitCallbacks.Registry.AtExit` | src/bridges/libc/cxx.c:23-44 | a callback is registered first, or refused |
| `ExitCallbacks.Registry.RunActs` | src/bridges/libc/cxx.c:78-83 | registrations and nested finalizations of running code are the model's |
| `ExitCallbacks.Registry.Finalize` | src/bridges/libc/cxx.c:51-85 | the loop is the model's finalization, callbacks in that order, nested ones included |
| `Library.EachHappensOnce` | src/loader.c:289-483 | over any calls constructors, destructors, preparation, final cleanup and release each happen at most once, destructors only after constructors, and the release is the last event of all, with everything else done |
| `Library.FinalizedIsFinal` | src/loader.c:289-483 | a finalized library is never cloned or initialized again and keeps a handle to retry with |
| `Library.ReleasedIsDrained` | src/loader.c:442-469 | a released library has no exit callback in its range |
| `Library.RefusalIsHarmless` | src/loader.c:413-429 | a busy library or a refused preparation changes nothing |
| `Library.Handle.InitLibrary` | src/loader.c:289-311 | runs every constructor in order, once, with what they do to the exit callbacks |
| `Library.Handle.CloneHandle` | src/loader.c:471-483 | a clone exactly when not unloading |
| `Library.Handle.CallFunction` | src/loader.c:302-438 | one function of an array, with what it does to the exit callbacks |
| `Library.Handle.RunDestructors` | src/loader.c:431-440 | every destructor, last first, with what they do to the exit callbacks |
| `Library.Handle.FinalizeLibrary` | src/loader.c:431-453 | destructors, drained callbacks, final cleanup |
| `Library.Handle.FreeLibrary` | src/loader.c:403-469 | the model's free step; destructors run only in the call that finalizes |
| `UnloadCalls.AskedExactly` | src/bridges/libc/cxx.c:46-97 | a range asks for the callbacks of objects in it and those whose code is in it, an object for its own, and no object for all |
| `UnloadCalls.LastRegisteredFirst` | src/bridges/libc/cxx.c:51-85 | callbacks that leave the registry alone run last registered first, each once, and the others stay in order |
| `UnloadCalls.NothingInRange` | src/bridges/libc/cxx.c:51-85 | after a finalization of a range no callback is left whose object or code is in it |
| `UnloadCalls.HandlesAreCounted` | src/loader.c:289-483 | while somebody holds a library its handles are counted, whatever else is called: it is not unloaded, and it is initialized exactly if that was asked for |
| `UnloadCalls.InitDecides` | src/loader.c:289-311 | initializing runs the constructors of a library that is not initialized, and answers false exactly for one that is being unloaded |
| `UnloadCalls.LastHandleUnloads` | src/loader.c:403-469 | giving back the last handle changes nothing if the library is busy or refuses; otherwise, in this order, the preparation, the destructors of an initialized library, the callbacks still registered and the final cleanup have happened, and it is released unless its synchronization objects cannot be destroyed |
| `UnloadCalls.RetryReleases` | src/loader.c:403-469 | the next try repeats none of it: it only runs what was registered meanwhile, and releases |
| `PreferencesCodec.ParseWritten` | src/bridges/jni/preferences.c:133-186 | parsing at an encoded record yields it and nothing more |
| `PreferencesCodec.WriteParsed` | src/bridges/jni/preferences.c:133-298 | a parsed record re-encodes to its bytes |
| `PreferencesCodec.DecodeEncode` | src/bridges/jni/preferences.c:188-299 | decoding an encoded list gives it back reversed |
| `PreferencesCodec.EncodeDecode` | src/bridges/jni/preferences.c:188-207 | whatever decodes is the encoding of what it decodes to, reversed |
| `PreferencesCodec.AcceptedExactly` | src/bridges/jni/preferences.c:188-207 | the accepted byte strings are exactly the encodings of proper lists within the limit |
| `Words.WordRoundTrip` | src/bridges/jni/preferences.c:110-120 | little-endian words: reading and writing undo each other |
| `Words.LittleEndian` | src/bridges/jni/preferences.c:110-120 | byte `k` of a word is its digit `k` to the base 256 |
| `Preferences.SameSize` | src/bridges/jni/preferences.c:265-274 | what a map takes in the file depends on the map only, not on the order of its list |
| `Preferences.ReplaceMap` | src/bridges/jni/preferences.c:370-378 | storing over a key updates the map at that key |
| `Preferences.InsertMap` | src/bridges/jni/preferences.c:379-389 | a new record adds its key |
| `Preferences.RemoveMap` | src/bridges/jni/preferences.c:408-420 | removing a record removes its key |
| `Preferences.SavedFilesReload` | src/bridges/jni/preferences.c:211-317 | every file a save writes is read back as the same map |
| `Preferences.RemovedFits` | src/bridges/jni/preferences.c:394-424 | a loaded list with one entry less always fits the file |
| `Preferences.Store.ReadRecord` | src/bridges/jni/preferences.c:133-186 | accepts exactly well-formed records with a new key |
| `Preferences.Store.FindEntry` | src/bridges/jni/preferences.c:122-131 | finds a key exactly when it is there |
| `Preferences.Store.DecodeEntries` | src/bridges/jni/preferences.c:188-207 | the loop decodes as the codec does |
| `Preferences.Store.Load` | src/bridges/jni/preferences.c:211-263 | nothing for an absent file, no answer for an unreadable one or when opening, reading or any allocation fails |
| `Preferences.Store.Measure` | src/bridges/jni/preferences.c:266-275 | the measuring loop accepts exactly lists within the limits |
| `Preferences.Store.WriteAll` | src/bridges/jni/preferences.c:286-299 | the written bytes are the encoding |
| `Preferences.Store.Save` | src/bridges/jni/preferences.c:265-317 | success exactly within the limits and with every file operation working; then the file holds the map, otherwise it is untouched |
| `Preferences.Store.Get` | src/bridges/jni/preferences.c:319-346 | a value exactly when the file can be read, has the key and the copy can be made; then it is the stored one |
| `Preferences.Store.Set` | src/bridges/jni/preferences.c:348-392 | updates the map or changes nothing; succeeds exactly with a known kind, a key and a value within the limit, a readable file, memory, a working save and a new map that fits the file |
| `Preferences.Store.Delete` | src/bridges/jni/preferences.c:394-424 | removes the key or changes nothing; succeeds exactly when the file can be read and the key is missing, which writes nothing, or the save works |
| `Preferences.Serve` | src/bridges/jni/preferences.c:319-424 | any sequence of gets, sets and deletes is a run on a finite map: every answer is right for the map the calls before it left, and the file ends up holding the map after the last |
| `Preferences.LastWriteWins` | src/bridges/jni/preferences.c:319-424 | at the end of any such run a key holds what the last call that changed it says, or what it held before |
| `PreferencesCalls.KindsExactly` | src/bridges/jni/preferences.c:133-353 | a value is kept exactly if its kind is one of Z, I, F and S |
| `PreferencesCalls.StorableExactly` | src/bridges/jni/preferences.c:265-275 | a list can be saved exactly if its file has at most a megabyte and it has at most 4096 entries |
| `PreferencesCalls.ReadsExactly` | src/bridges/jni/preferences.c:209-263 | the preferences can be read exactly if the file is not there, or if it holds a list within the limits and no step fails that reading it takes |
| `AssetCache.TouchKeeps` | src/bridges/android/asset_cache.c:152-160 | using a folder moves it to the front of the recency order |
| `AssetCache.FillKeeps` | src/bridges/android/asset_cache.c:213-219 | filling an empty slot keeps one faithful folder per path |
| `AssetCache.EvictKeeps` | src/bridges/android/asset_cache.c:213-219 | with every slot filled the least recently used folder makes room |
| `AssetCache.OldestIsLast` | src/bridges/android/asset_cache.c:162-176 | the slot with the least serial is the one used longest ago |
| `AssetCache.Cache.ReadNames` | src/bridges/android/asset_cache.c:105-122 | the whole directory within the limits, or nothing |
| `AssetCache.Cache.Load` | src/bridges/android/asset_cache.c:82-138 | a folder exactly when a complete snapshot within the limits was read |
| `AssetCache.Cache.Find` | src/bridges/android/asset_cache.c:140-150 | finds the folder of a path |
| `AssetCache.Cache.Slot` | src/bridges/android/asset_cache.c:162-176 | an empty slot, or one with the least serial |
| `AssetCache.Cache.Lookup` | src/bridges/android/asset_cache.c:193-201 | answers from the snapshot when the parent is cached, and moves it to the front |
| `AssetCache.Cache.Publish` | src/bridges/android/asset_cache.c:210-220 | installs the folder or uses one published meanwhile: one folder per path, least recently used replaced |
| `AssetCache.Cache.Cached` | src/bridges/android/asset_cache.c:178-224 | alone: false only when a complete snapshot of the parent lacks the name, and exactly then for a cached parent |
| `AssetCache.Cache.Take` | src/bridges/android/asset_cache.c:178-238 | one critical section of any thread is one turn of the least-recently-used model, with a truthful answer |
| `AssetCache.Cache.Serve` | src/bridges/android/asset_cache.c:178-238 | any number of calls by any threads, their sections in any order: no path is cached twice, what is cached is what a least-recently-used cache of sixteen keeps, and every question is answered truthfully |
| `AssetCache.Cache.Clear` | src/bridges/android/asset_cache.c:226-238 | nothing is cached |
| `AssetCalls.SplitExactly` | src/bridges/android/asset_cache.c:178-192 | a path is asked about exactly if it is a parent of 1 to 1023 bytes, a slash and a name without one |
| `AssetCalls.NamesExactly` | src/bridges/android/asset_cache.c:105-160 | a directory has a name exactly if one of its entries, other than itself and its parent, compares equal |
| `AssetCalls.LoadableExactly` | src/bridges/android/asset_cache.c:45-138 | a folder is cached exactly if there is memory and its directory is missing, or can be read and has at most 4096 names in at most 64 KB |
| `AssetCalls.CallAlone` | src/bridges/android/asset_cache.c:178-224 | one call, in one section or two, uses the parent if it is cached or can be and changes nothing else; its question is the path's own |
| `AssetCalls.LeastRecentlyUsed` | src/bridges/android/asset_cache.c:152-219 | the sixteen slots keep exactly the folders since whose last use at most sixteen, with itself, were used |
| `Sfx.InsertedSorted` | src/bridges/audio/sfx.c:244-259 | an insertion keeps the array sorted |
| `Sfx.InsertedHolds` | src/bridges/audio/sfx.c:244-259 | nothing is lost or doubled by it |
| `Sfx.SkippedInsert` | src/bridges/audio/sfx.c:251-253 | the skip pointer still has only played events below it |
| `Sfx.StartsAtMostOnce` | src/bridges/audio/sfx.c:91-262 | over any run the array stays sorted and no event starts twice |
| `Sfx.Mixer.MakeRoom` | src/bridges/audio/sfx.c:244-249 | later events move up by one, in place |
| `Sfx.Mixer.Insert` | src/bridges/audio/sfx.c:244-259 | the array is the old one with the event behind everything at its frame or before |
| `Sfx.UsedInstall` | src/bridges/audio/sfx.c:74-84 | a file that is not loaded takes a free slot, and no path is loaded twice |
| `Sfx.Mixer.FindSfx` | src/bridges/audio/sfx.c:7-16 | finds exactly what is loaded |
| `Sfx.Mixer.Install` | src/bridges/audio/sfx.c:65-88 | one more asset in a free slot, unless the file is loaded already; refused exactly when neither |
| `Sfx.Mixer.Preload` | src/bridges/audio/sfx.c:29-89 | succeeds exactly when the path resolves and the file is loaded already, or can be and has a slot |
| `Sfx.Mixer.ScheduleFound` | src/bridges/audio/sfx.c:218-261 | the event is queued exactly when the file is still loaded and there is room |
| `Sfx.Mixer.ScheduleSfx` | src/bridges/audio/sfx.c:209-262 | succeeds exactly when the file is or can be loaded and there is room; then the event is queued, otherwise nothing is |
| `Sfx.Mixer.UnloadSfx` | src/bridges/audio/sfx.c:91-123 | the slot is free, no waiting event and no voice refers to the asset any more, and everything else stays |
| `Sfx.Mixer.StartSfx` | src/bridges/audio/sfx.c:130-165 | the first free voice, or the first voice, gets the asset with volume, loops and range |
| `Sfx.Mixer.PlayFound` | src/bridges/audio/sfx.c:181-197 | the voice and its range when the file is loaded, and a silent voice and -1 when it no longer is |
| `Sfx.Mixer.Play` | src/bridges/audio/sfx.c:167-197 | succeeds exactly when the file is or can be loaded; then the voice started is the one an asset's start takes, with the range asked for if it fits |
| `SfxCalls.StartsOneVoice` | src/bridges/audio/sfx.c:130-165 | a start takes the first free voice, or the first one; it plays the asset from its first frame to its last with the loops and the volume asked for, under a handle of its own, and leaves the other voices alone |
| `SfxCalls.FreeVoiceExactly` | src/bridges/audio/sfx.c:132-142 | the first voice that is not active, or the first one if all are |
| `SfxCalls.HandlesCycle` | src/bridges/audio/sfx.c:144-149 | handles are given out in turn from 1 to 2^31-1 |
| `SfxCalls.RangedExactly` | src/bridges/audio/sfx.c:185-192 | a part is played exactly if it starts and ends, in milliseconds of 48 frames, inside the asset; otherwise the whole |
| `SfxCalls.TakenBack` | src/bridges/audio/sfx.c:91-123 | unloading takes back exactly the waiting events of the asset, and a new main track all |
| `SfxCalls.FreeExactly` | src/bridges/audio/sfx.c:18-27 | a slot is free exactly while fewer assets are loaded than there are slots |
| `SfxCalls.EveryEventStarts` | src/bridges/audio/mixer.c:17-47 | whatever else is scheduled, rendered or unloaded meanwhile, an event has started by the end of the block its frame is in, unless its asset is unloaded or the track is replaced |
| `SfxCalls.EventVoice` | src/bridges/audio/mixer.c:38-42 | an event is played once through at four fifths of full volume, at its delay |
| `Sfx.ScanIsComplete` | src/bridges/audio/mixer.c:27-46 | looking from the skip pointer to the first late event finds every due event of the array |
| `Sfx.NothingDueIsLeft` | src/bridges/audio/mixer.c:17-47 | after a block nothing that was due in it is left waiting, and all of it has started |
| `Sfx.StartsInTheBlock` | src/bridges/audio/mixer.c:38-42 | an event starts on a frame of its block: its own, or the first one played |
| `Sfx.Mixer.Consume` | src/bridges/audio/mixer.c:27-46 | the loop with its two early exits |
| `Sfx.Mixer.StartDue` | src/bridges/audio/mixer.c:17-47 | consuming is the full scan: exactly the due events start, in order, on the voices a full scan would give them |
| `Sfx.Mixer.ResetEvents` | src/bridges/audio/bgm.c:76-101 | a new main track forgets the events |

Rows that name two stretches of a file are cited by the range that covers both.

## Left out

- Match.Fnmatch: under PATHNAME it and `MatchStandard.MatchesStandard` assume that `towlower` sends nothing but the slash to where it sends the slash; `towlower` and `iswctype` themselves are parameters.
- Once.OneInitializerAtATime: assumes the guest does not write to a control that is in use; the registry's records are numbered rather than allocated.
- Feed.DeliveredIsDecoderOutput: the decoder is deterministic, its positions rise by one or fall, and a position it has reported can be sought exactly.
- Feed.RunKeepsInvariant: a feed is closed by its last owner, so no request follows a close; wakeups of readers of a parked feed are not modelled.
- Memory.Registry.Mremap: the kernel offers page-aligned storage that overlaps no block still held and ends below 2^32, also for a request that will fail; page protection inside `__copy`, `errno` values and the host-only branches are not modelled.
- MatchStandard.MatchesStandard: collating symbols of several characters and equivalence classes are the locale's, a parameter.
- Mp3.Stream.SeekFrames: constant rate up to 48000 and fixed samples per frame, so that a frame is either refused or decoded in full: frames that decode to no samples, which `decode_next_frame` reads past (mp3.c:318-345), and formats that change are not modelled; bytes that `mp3_frame_read` skips before a header count to the frame's size; a read error is a refused frame.
- Vorbis.Stream.NextSample: source frames are the ones the library delivers; frames lost in a hole it tolerates are not counted.
- References.EveryRunIsConsistent: objects are opaque; pins and the clearing of weak references by the collector are not modelled.
- Thread.MutexIsDepth: guest code detaches, destroys and exits without the runtime lock, which only the bridge itself takes; cancellation inside a wait is not modelled.
- Descriptor.SigParse: class names are the code's (not empty, none of `. ( [ )`), which allows more than the JVM specification's names.
- NativeCall.Pack: the entry stub's assembly, which copies the words to r0 to r3 and the stack, is taken as its comment describes; the host build uses libffi instead.
- Relocation.Bind: where an import is found (library search, bridge table, fingerprints of the audio provider) is a parameter.
- Relocation.OneShotEverywhere: about words that do not overlap; for overlapping ones the passes themselves are modelled but have no one-shot value.
- ElfLoad.LoadSegments: the kernel's reported block base is the requested one, or the block counts as refused.
- Library.EachHappensOnce: constructors, destructors and callbacks do not call back into the loader for the same library, and the host's preparation and final cleanup register no exit callbacks.
- ExitCallbacks.FinalizedDrains: what each callback does to the registry is finite and given in advance; other threads do not finalize at the same time.
- Preferences.Store.Save: renaming the temporary file is atomic; `errno` values are not modelled.
- AssetCache.Cache.Serve: `qsort` and `bsearch` are taken as a search that finds what is there under the name comparison; the directories do not change while the program runs.
- Sfx.Mixer.StartDue: the mixing of samples, which advances and ends voices, is left out; the track's position and delay are parameters.
- Sfx.Mixer.Play: `last_handle`, volumes set later, stopping and pausing are left out; volumes are real numbers.
- Thread.Runtime.LeaveCall: what the runtime collects is not modelled.
- The MP3 frame header parser: its limits come from the Vita codec library's headers, which are not part of the repository.
- Resolving exports by name, exception tables, cache flushing and library slots of the loader: easy searches.
- Runtime collection, monitors' ownership, reflection calls and strings of the JNI runtime.
- `sync.c`, `rwlock.c`, `poll.c`, files, sockets, graphics, input, fonts and logs: thin layers over calls whose code is not in the repository.
- Game-specific patches, Python packaging and release tools.

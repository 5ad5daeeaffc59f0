# Verified model of a text-to-speech front end

The system turns Chinese and English text into the syllables a speech
synthesizer reads. It carries its support libraries as source. This project
models five parts of it in Dafny and proves what they are for.

- **Word segmentation** (`Unicode`, `WordRanges`, `Trie`, `MPSegment`,
  `HMMSegment`, `MixSegment`, `PosTagger`): UTF-8 decoding, the dictionary trie,
  the maximum-weight cut, the Viterbi tagger for leftover runes, and the mixer.
  The main results are optimality of both dynamic programs with their ties, what
  the mixed cut makes of the two, stated on dictionary, model and runes alone, the
  trie as a map, and a cut that reproduces every decodable sentence byte for byte.
- **Queue and thread pool** (`BoundedQueue`, `BlockingQueue`, `ThreadPool`,
  `PoolOverQueue`): the ring buffer, the blocking queue as a step system over
  every interleaving, and the shutdown protocol, first over an atomic queue and
  then over the blocking queue's own steps. No wakeup is lost, shutdown runs every
  task once, and it neither deadlocks nor runs on for ever.
- **MD5 context** (`Md5`): streaming in any chunks equals hashing the whole
  padded message of RFC 1321, for an arbitrary block function.
- **Front-end logic** (`Numerals`, `MergePasses`, `ToneSandhi`, `FrontEnd`): numerals that
  read back as the number, with every zero accounted for; merge passes that keep
  the text, each with a promise on the words alone that leaves one possible
  output; and tone passes that change only tones, with closed forms for which.
- **Support** (`Argv`, `Flags`, `LocalVector`): the in-place permutation of the
  command line, the flag registry with transactional flag files that do what their
  applicable settings do one after the other, and the small-buffer vector.

Loops over mutable state are methods with invariants, each tied to a
specification function or stated outright; classes keep their fields. Weights
are `real`, with the floor of the source as a named constant. Machine widths are
written out where they matter: 8-bit bytes and 32-bit runes in `Unicode`, 32-bit
words with wrap-around in `Md5`, the 32-bit integer parser in `Numerals`. Word
lists, the pronunciation lookup, the splitter of words, the parsers and
validators of flag values, and the matching of file patterns are parameters.

`dafny verify dfyconfig.toml` checks the whole project, with automatic induction
for lemmas turned off; every induction is written out.

## Where the code does not do what it suggests

- The UTF-8 encoder keeps two bits of the lead of a four-byte form, so the round
  trip holds exactly below 0x100000 (`RoundTripExactly`, `PlaneSixteenIsLost`).
- The tagger need not be optimal for runes its model does not list
  (`UnseenRunesNeedNotBeOptimal`); what it gives then is in `BelowFloorEndsInEE`.
- The dictionary cut is optimal as long as words have positive frequencies
  (`OptimalIfRunesAreHeavyEnough`). A frequency of 0 in the user dictionary sinks
  every position up to that rune to the floor, and these lose their words
  (`ZeroFrequencyLosesWords`, `SunkRuneLosesWords`).
- The pass for 一 leaves 看一看 alone, which its comments say it changes, and
  changes number sequences that end in 一, which they say it leaves alone
  (`KanYiKanIsMissed`, `YiLingYiIsChanged`; exactly when it agrees with them is
  `YiMeetsItsRuleExactly`).
- The neutral-tone rules that ask for a part of speech never apply, because the
  tagger gives only x, m and eng (`TagRulesAreDead`, `DoubledExamplesAreMissed`).
- The first third-tone pass takes a word without finals for a third-tone word
  (`EnglishSwallowsThirdTone`; exactly when is `PairIsThirdToneUnlessSilent`).
- The first phase of merging 一 indexes its own shortened output with positions of
  the input (`DoubledVerbsOverrun`, `YiOverrunsExactly`). Only the tagger's tags
  keep it from running past the end.
- The third-tone pass leaves third tones side by side in some three- and
  four-character words; `ThirdTonesLeft` says in which.
- Zero digits at the end of a number, or of its part before 万 or 亿, are written:
  10 is 十零, and 10200 is not 一万零二百 (`TenIsTenZero`, `ExampleHasDoubleZero`;
  exactly when zeros stand as in that example is `ZerosInPlaceExactly`, where they
  stand otherwise `IdleZeroExactly` and `DoubleZeroExactly`). A zero before another
  digit is written unless 万 or 亿 comes between the two, as in 105000
  (`ZeroBeforeDigitExactly`, `ZeroPassedOverAtWan`).
- A task added after `Stop` has pushed its last null is lost, and no other
  (`LateTaskCanBeLost`, `LostExactlyIfTooLate`).
- A bare `--` moves the arguments after it in front of those parked before it
  (`DashDashReordersEarlierArguments`, `TailKeepsOrder`).
- A carriage return anywhere further down in a flag file joins the lines before it,
  and flags on them are not set (`SecondFlagIsSwallowed`; exactly when is
  `LinesRunTogetherExactly`).
- `Final` zeroes the MD5 context; only `Init` restarts it (`Context.Final`).
- Assigning a small-buffer vector to itself empties it (`LocalVector.Assign`).

## Model

| member | source | states |
|---|---|---|
| `Unicode.DecodeRuneInString` | voicetts/src/main/jni/cpp/front/cppjieba/Unicode.hpp:87-140 | a decoded rune never reaches past the end of the bytes; length 0 is failure and then the rune is 0 |
| `Unicode.DecodeRunesInString` | voicetts/src/main/jni/cpp/front/cppjieba/Unicode.hpp:142-157 | succeeds exactly when all bytes decode; then the runes are the decoded ones and lie over the bytes without gap, overlap or empty rune; on failure nothing is kept |
| `Unicode.Utf8ToUnicode32` | voicetts/src/main/jni/cpp/front/limonp/StringUtil.hpp:199-252 | the second decoder accepts exactly the same byte strings with the same runes, well-formed or not, and on failure keeps the runes before it |
| `Unicode.Unicode32ToUtf8` | voicetts/src/main/jni/cpp/front/limonp/StringUtil.hpp:254-277 | the loop emits exactly the encoding of the runes in order |
| `Unicode.DecodeOfEncode` | voicetts/src/main/jni/cpp/front/limonp/StringUtil.hpp:254-277 | decoding the encoding of one rune, wherever it stands, consumes all of it and gives the bits the encoder kept |
| `Unicode.DecodeEncoded` | voicetts/src/main/jni/cpp/front/limonp/StringUtil.hpp:199-277 | what the encoder writes always decodes, to the runes with the bits the encoder kept |
| `Unicode.RoundTripExactly` | voicetts/src/main/jni/cpp/front/limonp/StringUtil.hpp:199-277 | decoding undoes encoding if and only if every rune is below 0x100000 |
| `Unicode.PlaneSixteenIsLost` | voicetts/src/main/jni/cpp/front/limonp/StringUtil.hpp:269-274 | U+10FFFF, valid by section 3 of RFC 3629, comes back as U+FFFF |
| `WordRanges.GetWordFromRunes` | voicetts/src/main/jni/cpp/front/cppjieba/Unicode.hpp:192-198 | the word of a range is the non-empty byte slice from the start of its first rune to the end of its last, with matching rune positions |
| `WordRanges.GetWordsFromWordRanges` | voicetts/src/main/jni/cpp/front/cppjieba/Unicode.hpp:206-210 | ranges that tile the runes give words that are non-empty, lie end to end, spell the sentence byte for byte and each decode to exactly the runes of its range |
| `Trie.LastInsertionWins` | voicetts/src/main/jni/cpp/front/cppjieba/Trie.hpp:120-143 | after any insertions a key maps to the unit inserted last under it; the empty key maps to nothing |
| `Trie.LoadedKeyedByWord` | voicetts/src/main/jni/cpp/front/cppjieba/DictTrie.hpp:183-193 | a dictionary built by the loader files every unit under its own word |
| `Trie.EdgesExactly` | voicetts/src/main/jni/cpp/front/cppjieba/Trie.hpp:81-118 | the edges from a position are the one-rune entry and then exactly the longer slices within the length limit that are keys, by increasing end |
| `Trie.Trie.AddChild` | voicetts/src/main/jni/cpp/front/cppjieba/Trie.hpp:131-136 | linking a fresh node below a path adds exactly that path and keeps every other node, value and link |
| `Trie.Trie.InsertNode` | voicetts/src/main/jni/cpp/front/cppjieba/Trie.hpp:120-143 | insertion into the linked nodes is insertion into the map; empty keys are ignored |
| `Trie.Trie.Create` | voicetts/src/main/jni/cpp/front/cppjieba/Trie.hpp:53-56 | a trie built from lists of keys and units stands for the map of all insertions in order |
| `Trie.Trie.InsertAll` | voicetts/src/main/jni/cpp/front/cppjieba/Trie.hpp:172-181 | inserting parallel lists one by one is inserting them all into the map |
| `Trie.Trie.FindExact` | voicetts/src/main/jni/cpp/front/cppjieba/Trie.hpp:61-79 | walking the nodes finds exactly what the map holds, also for the empty key and for proper prefixes of keys |
| `Trie.Trie.FindDag` | voicetts/src/main/jni/cpp/front/cppjieba/Trie.hpp:81-118 | the DAG found by walking the nodes has, at every position, exactly the edges the map defines |
| `Trie.Trie.FindFrom` | voicetts/src/main/jni/cpp/front/cppjieba/Trie.hpp:90-117 | one start position: stopping at the first missing child loses no edge |
| `MPSegment.CalcDP` | voicetts/src/main/jni/cpp/front/cppjieba/MPSegment.hpp:80-108 | the in-place pass leaves the edges alone and gives every position the score the recursive definition gives it |
| `MPSegment.Winner` | voicetts/src/main/jni/cpp/front/cppjieba/MPSegment.hpp:85-107 | a score above the floor is the suffix score plus the weight of one of the edges, that edge's unit is the one recorded, and no earlier edge gives the score |
| `MPSegment.CutByDag` | voicetts/src/main/jni/cpp/front/cppjieba/MPSegment.hpp:109-127 | the words read off are those the recorded units define, shifted to where the text begins |
| `MPSegment.EmittedTiles` | voicetts/src/main/jni/cpp/front/cppjieba/MPSegment.hpp:109-127 | whatever the weights, the words read off cover the text without gap or overlap |
| `MPSegment.ScoreIsUpperBound` | voicetts/src/main/jni/cpp/front/cppjieba/MPSegment.hpp:80-108 | no segmentation into dictionary words and single runes weighs more than the computed score, floor or not |
| `MPSegment.EmittedAttainsScore` | voicetts/src/main/jni/cpp/front/cppjieba/MPSegment.hpp:80-127 | where the floor plays no part, the words read off weigh exactly the computed score |
| `MPSegment.EmittedIsFirst` | voicetts/src/main/jni/cpp/front/cppjieba/MPSegment.hpp:80-127 | ties: of all segmentations that weigh as much, the one read off has the shorter word where they first differ |
| `MPSegment.BestIsOptimal` | voicetts/src/main/jni/cpp/front/cppjieba/MPSegment.hpp:80-127 | if from every position some segmentation stays above the floor, the result is a heaviest segmentation, for arbitrary weights |
| `MPSegment.BestIsOptimalForLogWeights` | voicetts/src/main/jni/cpp/front/cppjieba/MPSegment.hpp:80-127 | with log-probabilities: the result weighs more than the floor if and only if some segmentation does, and then it is a heaviest one |
| `MPSegment.BestIsDictionaryCut` | voicetts/src/main/jni/cpp/front/cppjieba/MPSegment.hpp:80-127 | all this together, for arbitrary weights and for log-probabilities |
| `MPSegment.OptimalIfRunesAreHeavyEnough` | voicetts/src/main/jni/cpp/front/cppjieba/MPSegment.hpp:80-127 | on the weights alone: if every single rune weighs at least w and w times the length stays above the floor, the result is a heaviest segmentation |
| `MPSegment.BelowFloorReadsOneRune` | voicetts/src/main/jni/cpp/front/cppjieba/MPSegment.hpp:80-127 | where no segmentation of the rest is above the floor, a single rune is read off |
| `MPSegment.SunkRuneLosesWords` | voicetts/src/main/jni/cpp/front/cppjieba/MPSegment.hpp:80-127 | a rune that only words at or below the floor cover costs every position up to it its dictionary words |
| `MPSegment.ZeroFrequencyLosesWords` | voicetts/src/main/jni/cpp/front/cppjieba/DictTrie.hpp:126-129 | so a user dictionary line with frequency 0 for one rune loses the word before it, and the result is not a heaviest segmentation |
| `MPSegment.Cut` | voicetts/src/main/jni/cpp/front/cppjieba/MPSegment.hpp:55-66 | the result is a segmentation of the range; if from every position some segmentation stays above the floor it is the heaviest, and of those as heavy the one with the shorter words first; with log-probabilities that holds from every word on whose rest can be cut above the floor, and the other words are single runes |
| `HMMSegment.FillCell` | voicetts/src/main/jni/cpp/front/cppjieba/HMMSegment.hpp:153-165 | the innermost loop computes one cell from the previous column and changes no other cell |
| `HMMSegment.FillColumn` | voicetts/src/main/jni/cpp/front/cppjieba/HMMSegment.hpp:151-167 | a column is computed from the one before it; earlier columns keep their values |
| `HMMSegment.Viterbi` | voicetts/src/main/jni/cpp/front/cppjieba/HMMSegment.hpp:130-182 | the tables and the backward loop compute the tagging of the recursive definition |
| `HMMSegment.Trace` | voicetts/src/main/jni/cpp/front/cppjieba/HMMSegment.hpp:177-181 | following the recorded predecessors backwards gives the traced tags in order |
| `HMMSegment.CellIsUpperBound` | voicetts/src/main/jni/cpp/front/cppjieba/HMMSegment.hpp:146-167 | no tag sequence scores more than the cell it ends in, floor or not |
| `HMMSegment.TraceAttainsCell` | voicetts/src/main/jni/cpp/front/cppjieba/HMMSegment.hpp:146-181 | tracing back from a cell above the floor gives a sequence that scores exactly the cell's weight |
| `HMMSegment.StatusIsOptimal` | voicetts/src/main/jni/cpp/front/cppjieba/HMMSegment.hpp:130-182 | with log-probabilities: the computed tagging scores above the floor if and only if some tagging that closes its last word does; then it is a best one and uses no step at or below the floor |
| `HMMSegment.StatusIsFirst` | voicetts/src/main/jni/cpp/front/cppjieba/HMMSegment.hpp:130-182 | ties: of all best taggings, the computed one has the smaller tag where they last differ |
| `HMMSegment.OneRuneIsOptimal` | voicetts/src/main/jni/cpp/front/cppjieba/HMMSegment.hpp:130-182 | a single rune always gets a best closing tag, floor or not |
| `HMMSegment.BelowFloorEndsInEE` | voicetts/src/main/jni/cpp/front/cppjieba/HMMSegment.hpp:130-182 | what comes out when no tagging is above the floor: for two runes or more the last two tags are E, and the rest is traced from there |
| `HMMSegment.UnseenRunesNeedNotBeOptimal` | voicetts/src/main/jni/cpp/front/cppjieba/HMMSegment.hpp:130-182 | then it need not be a best tagging: for any two runes, with the start and transition probabilities that come with the system and emissions that list other runes only, B E scores better by more than 3.14e100 |
| `HMMSegment.WordsEndAtClosingTags` | voicetts/src/main/jni/cpp/front/cppjieba/HMMSegment.hpp:114-128 | words end exactly at the runes tagged E or S |
| `HMMSegment.ClosedTiles` | voicetts/src/main/jni/cpp/front/cppjieba/HMMSegment.hpp:114-128 | if the last tag closes a word, the words tile the run |
| `HMMSegment.InternalCut` | voicetts/src/main/jni/cpp/front/cppjieba/HMMSegment.hpp:114-128 | the ranges tile the run and end exactly where tags are E or S, for a tagging of the run that is the first of the best ones if any scores above the floor, a best one if there is one rune, and ends in E E otherwise |
| `HMMSegment.SequentialLetterRule` | voicetts/src/main/jni/cpp/front/cppjieba/HMMSegment.hpp:79-95 | a letter is extended by the maximal run of letters and digits; anything else is not touched |
| `HMMSegment.NumbersRule` | voicetts/src/main/jni/cpp/front/cppjieba/HMMSegment.hpp:97-113 | a digit is extended by the maximal run of digits and points; anything else is not touched |
| `HMMSegment.RangesTile` | voicetts/src/main/jni/cpp/front/cppjieba/HMMSegment.hpp:46-76 | ASCII tokens and the tagged cuts of the non-ASCII runs between them cover the range without gap or overlap |
| `HMMSegment.RangesAreTaggerCut` | voicetts/src/main/jni/cpp/front/cppjieba/HMMSegment.hpp:46-76 | the same for the recursive definition |
| `HMMSegment.Cut` | voicetts/src/main/jni/cpp/front/cppjieba/HMMSegment.hpp:46-76 | ASCII tokens (a letter with the letters and digits after it, a digit with the digits and points after it, or one rune) stand alone, and the ranges of every maximal non-ASCII run are its cut by tags |
| `MixSegment.PieceEnd` | voicetts/src/main/jni/cpp/front/cppjieba/PreFilter.hpp:30-45 | a piece is one separator, or the longest run without any |
| `MixSegment.PreFilter.Next` | voicetts/src/main/jni/cpp/front/cppjieba/PreFilter.hpp:30-45 | each call returns the next piece and moves the cursor to its end |
| `MixSegment.StandingWordsSurvive` | voicetts/src/main/jni/cpp/front/cppjieba/MixSegment.hpp:54-85 | every dictionary word longer than one rune, and every single rune of the user dictionary, is a word of the result |
| `MixSegment.MixWords` | voicetts/src/main/jni/cpp/front/cppjieba/MixSegment.hpp:54-85 | the loop with its jumping index recuts exactly the maximal runs of leftover single runes and keeps everything else |
| `MixSegment.CutPiece` | voicetts/src/main/jni/cpp/front/cppjieba/MixSegment.hpp:46-86 | with the tagger off the words are the dictionary cut; with it on, every word of that cut that is longer than a rune or in the user list stays, the ranges of every maximal run of the others are the tagger's cut of it, and there are no other words |
| `MixSegment.MixedIsRecut` | voicetts/src/main/jni/cpp/front/cppjieba/MixSegment.hpp:54-85 | the same for the mixing loop's recursive definition, from any word on where no run of leftovers is cut in two |
| `MixSegment.CutRunes` | voicetts/src/main/jni/cpp/front/cppjieba/MixSegment.hpp:32-44 | every piece, a separator or what is between two, is cut by itself in this way, in order and without gap |
| `MixSegment.Cut` | voicetts/src/main/jni/cpp/front/cppjieba/MixSegment.hpp:32-44 | for every byte string that decodes, with the tagger on or off, the words spell ranges cut piece by piece in this way; whatever the weights they are non-empty, lie end to end, concatenate to the sentence and each decode to their own runes; a string that does not decode gives no words |
| `MixSegment.SeparatorsStandAlone` | voicetts/src/main/jni/cpp/front/cppjieba/MixSegment.hpp:32-44 | a separator is always a word by itself |
| `MixSegment.ExtractCheck` | voicetts/src/main/jni/cpp/front/cppjieba/KeywordExtractor.hpp:58-76 | the extractor's length check fires exactly when the sentence did not decode |
| `BoundedQueue.BoundedQueue.Push` | voicetts/src/main/jni/cpp/front/limonp/BoundedQueue.hpp:40-45 | pushing appends to the contents around the ring |
| `BoundedQueue.BoundedQueue.Pop` | voicetts/src/main/jni/cpp/front/limonp/BoundedQueue.hpp:47-53 | popping takes the first of the contents and leaves the rest |
| `BoundedQueue.BoundedQueue.Clear` | voicetts/src/main/jni/cpp/front/limonp/BoundedQueue.hpp:22-26 | clearing empties the contents |
| `BoundedQueue.BoundedQueue.constructor` | voicetts/src/main/jni/cpp/front/limonp/BoundedQueue.hpp:13-18 | a new queue is empty |
| `BlockingQueue.StepKeepsWakeups` | voicetts/src/main/jni/cpp/front/limonp/BoundedBlockingQueue.hpp:18-37 | no step loses a wakeup: while a thread waits unsignalled, every item (or free slot) it could use is matched by a signalled thread of its kind still in flight |
| `BlockingQueue.StepKeepsInv` | voicetts/src/main/jni/cpp/front/limonp/BoundedBlockingQueue.hpp:18-37 | every step keeps mutual exclusion, the capacity bound, first-in-first-out order and the wakeup accounting |
| `BlockingQueue.RunsKeepInv` | voicetts/src/main/jni/cpp/front/limonp/BoundedBlockingQueue.hpp:18-37 | so does every run, spurious wakeups and overtaking threads included |
| `BlockingQueue.NobodyStranded` | voicetts/src/main/jni/cpp/front/limonp/BoundedBlockingQueue.hpp:18-37 | in every reachable state either some thread can move, or consumers wait only on an empty queue, producers only on a full one, and not both |
| `BlockingQueue.BusyCanProgress` | voicetts/src/main/jni/cpp/front/limonp/BoundedBlockingQueue.hpp:18-37 | if any thread is neither idle nor waiting, some step needs no new call and no spurious wakeup |
| `BlockingQueue.RefinesAtomicQueue` | voicetts/src/main/jni/cpp/front/limonp/BoundedBlockingQueue.hpp:18-37 | every step is a push, a pop or nothing on an atomic bounded queue, and a pop returns the item it took |
| `BlockingQueue.FirstInFirstOut` | voicetts/src/main/jni/cpp/front/limonp/BoundedBlockingQueue.hpp:18-37 | over every run what was popped, followed by the queue, is what was pushed |
| `ThreadPool.StepConserves` | voicetts/src/main/jni/cpp/front/limonp/ThreadPool.hpp:24-75 | every step keeps each task's additions equal to its runs, its current executions and its queued copies |
| `ThreadPool.StepKeepsClosing` | voicetts/src/main/jni/cpp/front/limonp/ThreadPool.hpp:24-75 | every step, late additions included, keeps the count of nulls pushed, queued and consumed, the order of joins, and the queue's shape: the tasks that came too late stand at its end, behind a null if anything is before them |
| `ThreadPool.ShutdownRunsEverythingOnce` | voicetts/src/main/jni/cpp/front/limonp/ThreadPool.hpp:24-75 | in every run whose additions all precede Stop, when Stop returns every task has run exactly as often as it was added, each worker has consumed exactly one null and the queue is empty |
| `ThreadPool.ShutdownNeverStuck` | voicetts/src/main/jni/cpp/front/limonp/ThreadPool.hpp:61-70 | between the call of Stop and its return some step is always possible |
| `ThreadPool.ShutdownTerminates` | voicetts/src/main/jni/cpp/front/limonp/ThreadPool.hpp:61-70 | no run after the call of Stop is longer than the work left |
| `ThreadPool.MaximalRunsReturn` | voicetts/src/main/jni/cpp/front/limonp/ThreadPool.hpp:61-70 | a run with Stop called that nothing can extend has seen Stop return |
| `ThreadPool.LostExactlyIfTooLate` | voicetts/src/main/jni/cpp/front/limonp/ThreadPool.hpp:24-75 | in every run, when Stop returns the queue holds exactly the tasks added after the last null was pushed, in order; so everything added has run if and only if there are none, and a task added while Stop still pushes nulls is not lost |
| `ThreadPool.LateTaskCanBeLost` | voicetts/src/main/jni/cpp/front/limonp/ThreadPool.hpp:61-75 | a task added while Stop runs can stay in the queue for ever |
| `PoolOverQueue.StepKeepsInv` | voicetts/src/main/jni/cpp/front/limonp/ThreadPool.hpp:24-75 | over the blocking queue's own steps, each worker is inside the queue exactly while it pops, Stop exactly while it pushes a null, and every pop brings an item |
| `PoolOverQueue.StepRefines` | voicetts/src/main/jni/cpp/front/limonp/ThreadPool.hpp:24-75 | every step is a step of the pool over an atomic queue, or changes nothing there |
| `PoolOverQueue.RunsRefine` | voicetts/src/main/jni/cpp/front/limonp/ThreadPool.hpp:24-75 | so every interleaved run is a run of that pool |
| `PoolOverQueue.LostExactlyIfTooLate` | voicetts/src/main/jni/cpp/front/limonp/ThreadPool.hpp:24-75 | for every interleaving, a task is lost if and only if it enters the queue after the last null |
| `PoolOverQueue.ShutdownNeverStuck` | voicetts/src/main/jni/cpp/front/limonp/ThreadPool.hpp:61-70 | for every interleaving, late additions included, between the call of Stop and its return somebody can move without a new call or a spurious wakeup |
| `PoolOverQueue.MaximalRunsReturn` | voicetts/src/main/jni/cpp/front/limonp/ThreadPool.hpp:61-70 | a run with Stop called that only new calls and spurious wakeups could extend has seen Stop return |
| `PoolOverQueue.ShutdownTerminates` | voicetts/src/main/jni/cpp/front/limonp/ThreadPool.hpp:61-70 | once Stop is called with no Add under way, a run is no longer than the work left plus three steps for every spurious wakeup |
| `PoolOverQueue.EveryShutdownTerminates` | voicetts/src/main/jni/cpp/front/limonp/ThreadPool.hpp:61-70 | the same from the start of the program |
| `PoolOverQueue.ShutdownHappens` | voicetts/src/main/jni/cpp/front/limonp/ThreadPool.hpp:24-75 | such shutdowns exist: for every task there is a run from the start that adds it, runs it once, and sees Stop return with the queue empty |
| `Md5.CountedIsCarried` | voicetts/src/main/jni/cpp/front/limonp/Md5.hpp:258-262 | the two-word update with its carry adds exactly eight times the length, modulo 2^64 |
| `Md5.IndexFromCount` | voicetts/src/main/jni/cpp/front/limonp/Md5.hpp:255-256 | the low counter word gives the fill of the current block |
| `Md5.FoldContinues` | voicetts/src/main/jni/cpp/front/limonp/Md5.hpp:265-277 | completing the buffered block and going on is hashing the concatenation |
| `Md5.Context.constructor` | voicetts/src/main/jni/cpp/front/limonp/Md5.hpp:232-245 | a new context has hashed nothing and starts from the RFC 1321 constants |
| `Md5.Context.Init` | voicetts/src/main/jni/cpp/front/limonp/Md5.hpp:237-245 | restarts the hash |
| `Md5.Context.Absorb` | voicetts/src/main/jni/cpp/front/limonp/Md5.hpp:265-279 | state and buffer after an update are the fold over the whole blocks of everything hashed so far, and the leftover |
| `Md5.Context.Update` | voicetts/src/main/jni/cpp/front/limonp/Md5.hpp:250-280 | after any sequence of updates the state is the block function folded over the blocks of the concatenated input, the buffer holds the leftover, and the counter words hold 8 times the length modulo 2^64 |
| `Md5.Context.Pad` | voicetts/src/main/jni/cpp/front/limonp/Md5.hpp:289-298 | exactly the padded message of sections 3.1 and 3.2 of RFC 1321 is hashed |
| `Md5.Context.Final` | voicetts/src/main/jni/cpp/front/limonp/Md5.hpp:285-307 | the digest is 16 bytes that decode to the four state words after hashing the padded message; afterwards the context is zeroed, which is not a restart |
| `Md5.EncodeInto` | voicetts/src/main/jni/cpp/front/limonp/Md5.hpp:207-216 | the byte loop writes every word low byte first |
| `Md5.DecodeEncode` | voicetts/src/main/jni/cpp/front/limonp/Md5.hpp:207-226 | decoding undoes encoding |
| `Md5.LengthBytes` | voicetts/src/main/jni/cpp/front/limonp/Md5.hpp:289-290 | the encoded counter words are the 64-bit bit length, low byte first |
| `Md5.PadLength` | voicetts/src/main/jni/cpp/front/limonp/Md5.hpp:292-295 | the pad length is between 1 and 64, and that much of the padding is the marker and exactly the zeros that are needed |
| `Md5.PaddingCompletes` | voicetts/src/main/jni/cpp/front/limonp/Md5.hpp:289-298 | message, padding and counter bytes together are the padded message |
| `Md5.PaddedIsWholeBlocks` | voicetts/src/main/jni/cpp/front/limonp/Md5.hpp:289-298 | what is hashed is a whole number of blocks: the message, the byte 0x80, fewer than 64 zero bytes, and eight bytes that hold the bit length modulo 2^64 |
| `Md5.InitialBytes` | voicetts/src/main/jni/cpp/front/limonp/Md5.hpp:237-245 | the initial words are those of section 3.3 of RFC 1321, byte for byte |
| `Md5.DigestChunks` | voicetts/src/main/jni/cpp/front/limonp/Md5.hpp:326-373 | however the input is cut up, the digest is that of the whole, and decodes to the four state words in order |
| `Numerals.Pieces` | voicetts/src/main/jni/cpp/front/text_normalize.cc:93-113 | both pieces of the recursion are non-empty, shorter, and concatenate to the input; they carry quotient and remainder by the unit |
| `Numerals.TextKeepsValue` | voicetts/src/main/jni/cpp/front/text_normalize.cc:78-114 | an independent left-to-right evaluator reads the text of any accepted number, with any leading zeros, back as that number |
| `Numerals.ShorteningKeepsValue` | voicetts/src/main/jni/cpp/front/text_normalize.cc:150-158 | dropping a leading one before ten does not change the value |
| `Numerals.TextNormalizer.SingleDigit2Text` | voicetts/src/main/jni/cpp/front/text_normalize.cc:117-134 | digit by digit, each character reads back as its digit; unknown characters give nothing and leave an empty entry in the map |
| `Numerals.TextNormalizer.MultiDigit2Text` | voicetts/src/main/jni/cpp/front/text_normalize.cc:142-159 | on digit strings it succeeds exactly for non-empty ones up to 2147483647, the text evaluates to the number, its digits other than zero are those of the string in order with 零 before them as `ZeroBeforeDigitExactly` says, and a one before a leading ten is dropped; on other strings it gives what the parser makes of them, or fails with it |
| `Numerals.StoiOfDigits` | voicetts/src/main/jni/cpp/front/text_normalize.cc:81-81 | on digits the parser fails only for the empty string and beyond the machine range |
| `Numerals.DoubleZeroExactly` | voicetts/src/main/jni/cpp/front/text_normalize.cc:78-114 | with zeros asked for, the text has 零零 exactly if the number is a round hundred, or the ten-thousands of its last eight digits are, or it is zero with leading zeros; without, never |
| `Numerals.IdleZeroExactly` | voicetts/src/main/jni/cpp/front/text_normalize.cc:78-114 | with zeros asked for or not, the text ends in 零 exactly for the multiples of ten, has 零 right before 万 or 亿 exactly if the digits in front of it are a multiple of ten, and before no other unit |
| `Numerals.ZerosInPlaceExactly` | voicetts/src/main/jni/cpp/front/text_normalize.cc:77-114 | zeros stand as in the example of the code, one at a time and only before a digit, if and only if neither the number nor its ten-thousands nor its hundred millions end in a zero digit, or it is zero itself |
| `Numerals.ZeroBeforeDigitExactly` | voicetts/src/main/jni/cpp/front/text_normalize.cc:78-114 | with zeros asked for, a digit other than zero stands right behind 零 if and only if the digit string has a zero right before it and neither 万 nor 亿 comes between the two; without, never |
| `Numerals.EveryZeroWrittenExactly` | voicetts/src/main/jni/cpp/front/text_normalize.cc:78-114 | so every zero before such a digit is written if and only if none stands at the end of the part before 万 or 亿 with another digit after it |
| `Numerals.ZeroPassedOverAtWan` | voicetts/src/main/jni/cpp/front/text_normalize.cc:78-114 | 105000 is a number where one is not written |
| `Numerals.TenIsTenZero` | voicetts/src/main/jni/cpp/front/text_normalize.cc:78-159 | ten is written 十零, with zeros asked for or not |
| `Numerals.ExampleHasDoubleZero` | voicetts/src/main/jni/cpp/front/text_normalize.cc:77-114 | so the example 10200 is not written 一万零二百 |
| `MergePasses.MergeBu` | voicetts/src/main/jni/cpp/front/front_interface.cc:603-627 | 不 takes in the word after it and its tag, and nothing else is joined; an output word 不 can only be the last one, and has tag d |
| `MergePasses.MergeYi` | voicetts/src/main/jni/cpp/front/front_interface.cc:629-664 | without verb tags the first phase is the identity, and then 一 takes in the word after it and nothing else is joined; with them the phase may fail by indexing past its output |
| `MergePasses.YiPhaseOneIsIdentity` | voicetts/src/main/jni/cpp/front/front_interface.cc:631-649 | without verb tags the first phase returns its input |
| `MergePasses.YiOverrunsExactly` | voicetts/src/main/jni/cpp/front/front_interface.cc:631-649 | the first phase indexes past its output exactly when a verb doubled around 一 comes after a word the phase has dropped |
| `MergePasses.YiPhaseOneExactly` | voicetts/src/main/jni/cpp/front/front_interface.cc:631-649 | where it does not, it doubles at most one verb around 一, drops that 一 and the repeated verbs, and keeps the rest in order |
| `MergePasses.DoubledVerb` | voicetts/src/main/jni/cpp/front/front_interface.cc:631-649 | as in 听 一 听, for any verb |
| `MergePasses.DoubledVerbsOverrun` | voicetts/src/main/jni/cpp/front/front_interface.cc:631-649 | with verb tags it can index past its own output: a concrete list of five words |
| `MergePasses.MergeReduplication` | voicetts/src/main/jni/cpp/front/front_interface.cc:667-683 | a word equal to the output word before it is taken in, and no other |
| `MergePasses.MergeThreeTones` | voicetts/src/main/jni/cpp/front/front_interface.cc:686-818 | an output word is two words if and only if the first is not yet merged and no reduplication, the second is spoken and not punctuation set aside, they have at most three characters, and their tones meet: no other tone than the third in either, or for the second pass both pronounced, the first ending and the second beginning in tone three |
| `MergePasses.MergeEr` | voicetts/src/main/jni/cpp/front/front_interface.cc:821-837 | 儿 is taken in by the word before it, and no other word is |
| `MergePasses.ErOnlyFirst` | voicetts/src/main/jni/cpp/front/front_interface.cc:821-837 | so 儿 is no output word but the first |
| `MergePasses.ApplyMerges` | voicetts/src/main/jni/cpp/front/front_interface.cc:603-837 | the regrouping that defines each pass keeps its promise on the words alone |
| `MergePasses.OneOutput` | voicetts/src/main/jni/cpp/front/front_interface.cc:603-837 | that promise leaves one possible output |
| `MergePasses.HenMeili` | voicetts/src/main/jni/cpp/front/front_interface.cc:753-818 | 很 and 美丽 meet in third tones and become 很美丽 |
| `MergePasses.ApplyKeepsText` | voicetts/src/main/jni/cpp/front/front_interface.cc:603-837 | every pass keeps the text |
| `MergePasses.TonesNeverChain` | voicetts/src/main/jni/cpp/front/front_interface.cc:686-818 | every output word of a third-tone pass is one input word, or two consecutive ones of at most three characters together |
| `MergePasses.PairIsThirdToneUnlessSilent` | voicetts/src/main/jni/cpp/front/front_interface.cc:686-750 | a pair made by the first third-tone pass is two third-tone words if and only if neither is unspoken, punctuation to omit or without pronunciation |
| `MergePasses.SilentSwallowsThirdTone` | voicetts/src/main/jni/cpp/front/front_interface.cc:686-750 | a short word without finals takes in the third-tone word after it, under its own tag |
| `MergePasses.EnglishSwallowsThirdTone` | voicetts/src/main/jni/cpp/front/front_interface.cc:686-750 | so ok followed by 好 becomes one English word |
| `MergePasses.PipelineKeepsText` | voicetts/src/main/jni/cpp/front/front_interface.cc:839-858 | the six passes in order keep the text, leave no word empty and never make more words |
| `MergePasses.MergeForModify` | voicetts/src/main/jni/cpp/front/front_interface.cc:839-858 | for the tagger's tags the methods in order compute that pipeline, each keeping its promise, and cannot fail |
| `MergePasses.PipelineTags` | voicetts/src/main/jni/cpp/front/front_interface.cc:839-858 | the passes bring in no tag but d, for a 不 that stands alone |
| `FrontEnd.Retag` | voicetts/src/main/jni/cpp/front/front_interface.cc:447-453 | words made of letters only are tagged eng, the others keep their tag |
| `FrontEnd.CutWords` | voicetts/src/main/jni/cpp/front/front_interface.cc:441-445 | the words are those of the mixed segmenter: whole runes, a space only by itself, and together the sentence; none if it does not decode |
| `FrontEnd.Cut` | voicetts/src/main/jni/cpp/front/front_interface.cc:441-462 | for every sentence that decodes, the result is what the six merge passes in order make of the segmenter's words with their tags: non-empty words with the four tags known to the tone passes, which together spell the sentence without its space bytes; there is no result exactly if the sentence does not decode or nothing of it is spoken |
| `FrontEnd.TagRulesAreDead` | voicetts/src/main/jni/cpp/front/front_interface.cc:441-462 | on every word that comes out, the neutral-tone pass decides without looking at the tag |
| `PosTagger.SpecialRule` | voicetts/src/main/jni/cpp/front/cppjieba/PosTagger.hpp:55-76 | x exactly when there are fewer than two runes or no ASCII ones, m exactly when all ASCII runes looked at are digits, eng otherwise |
| `PosTagger.HalfDecides` | voicetts/src/main/jni/cpp/front/cppjieba/PosTagger.hpp:55-76 | digits in the first half of a word make it a number, whatever comes after them |
| `PosTagger.LookupTag` | voicetts/src/main/jni/cpp/front/cppjieba/PosTagger.hpp:36-52 | the tag is that rule's for the decoded runes, and x for a word that does not decode |
| `PosTagger.Tag` | voicetts/src/main/jni/cpp/front/cppjieba/PosTagger.hpp:22-34 | the tagged words are those that are neither empty nor a single space, in order, each with the tag of its runes |
| `ToneSandhi.BuSandhi` | voicetts/src/main/jni/cpp/front/front_interface.cc:861-883 | 不 in the middle of three characters gets tone 5 and nothing else changes; otherwise every 不 before a final of tone 4 gets tone 2, and every other final is unchanged |
| `ToneSandhi.BuExamples` | voicetts/src/main/jni/cpp/front/front_interface.cc:870-879 | the examples of the code, 看不懂 and 不怕 |
| `ToneSandhi.YiSandhi` | voicetts/src/main/jni/cpp/front/front_interface.cc:886-929 | words that do not end in 一 are unchanged; in those that do, 一一一 gets tone 5 in the middle, 第一 at the front gets tone 1, and otherwise every 一 before another character gets tone 2 before tone 4 and tone 4 before any other |
| `ToneSandhi.YiMeetsItsRuleExactly` | voicetts/src/main/jni/cpp/front/front_interface.cc:886-929 | the pass does what its comments say (number sequences unchanged, tone 5 between equal characters, 1 after 第, else 2 or 4) if and only if the word has no 一, or is a number sequence exactly when it does not end in 一, or has the tones already |
| `ToneSandhi.YiRuleExamples` | voicetts/src/main/jni/cpp/front/front_interface.cc:909-924 | what the comments ask for in 第一, 一段 and 一天 |
| `ToneSandhi.KanYiKanIsMissed` | voicetts/src/main/jni/cpp/front/front_interface.cc:909-911 | its own example 看一看 stays as it is |
| `ToneSandhi.YiLingYiIsChanged` | voicetts/src/main/jni/cpp/front/front_interface.cc:895-908 | the number sequence 一零一 is changed |
| `ToneSandhi.NeuralSandhi` | voicetts/src/main/jni/cpp/front/front_interface.cc:931-1020 | only tones change; every changed final gets tone 5, and only at doubled characters, at the last one and at the end of the first piece; at exactly the neutral positions it is set |
| `ToneSandhi.EndRules` | voicetts/src/main/jni/cpp/front/front_interface.cc:968-990 | the chain of rules makes the last character neutral exactly if one of them holds |
| `ToneSandhi.NeutralRules` | voicetts/src/main/jni/cpp/front/front_interface.cc:949-1015 | whatever the tag, a final particle, a direction complement, a counted or lone 个, and the last character of a listed word or piece get tone 5 |
| `ToneSandhi.NeutralByTag` | voicetts/src/main/jni/cpp/front/front_interface.cc:941-975 | with the tags they ask for, so do doubled characters, lone 了 着 过, listed words in 们 or 子, and words of place |
| `ToneSandhi.OnlyThoseNeutral` | voicetts/src/main/jni/cpp/front/front_interface.cc:941-1015 | with the tags words have here, no other final changes |
| `ToneSandhi.TagsDecideNothing` | voicetts/src/main/jni/cpp/front/front_interface.cc:941-971 | with the tags words have here, no rule that asks for a part of speech ever applies |
| `ToneSandhi.DoublingIsMissed` | voicetts/src/main/jni/cpp/front/front_interface.cc:941-947 | so a doubled character stays as it is unless the word is listed or the character has a rule of its own |
| `ToneSandhi.DoubledExamplesAreMissed` | voicetts/src/main/jni/cpp/front/front_interface.cc:941-947 | this goes for the examples 奶奶 and 试试 of the code |
| `ToneSandhi.ThreeSandhi` | voicetts/src/main/jni/cpp/front/front_interface.cc:1022-1096 | a closed form on the input tones: of two third tones side by side the first turns to tone 2 in two characters and in each half of four; in three, the first if the split is after the second, or after the first and no third follows; the second if it is after the first, or after the second and all three are third tones; nothing else changes |
| `ToneSandhi.ThirdTonesLeft` | voicetts/src/main/jni/cpp/front/front_interface.cc:1022-1096 | exactly which third tones are left side by side: none in two characters or within the halves of four; across the halves of four, and in three characters split after the second or not at all, under the stated condition and no other |
| `ToneSandhi.ModifyTone` | voicetts/src/main/jni/cpp/front/front_interface.cc:1098-1106 | the four passes in order keep the number of finals and everything but each final's last character |
| `ToneSandhi.MergeErhua` | voicetts/src/main/jni/cpp/front/front_interface.cc:1108-1148 | a final 儿 pronounced er2 or er5 is read into the syllable before it, the r before its tone, unless the word or its last two characters are listed or its tag forbids it; otherwise nothing changes |
| `Argv.ScanPermutes` | voicetts/src/main/jni/cpp/front/include/gflags/gflags.cc:1030-1119 | every argument position occurs exactly once among options, rest and parked arguments |
| `Argv.ScanOrdered` | voicetts/src/main/jni/cpp/front/include/gflags/gflags.cc:1030-1119 | each of the three keeps its original order |
| `Argv.TakesNextExactly` | voicetts/src/main/jni/cpp/front/include/gflags/gflags.cc:1056-1100 | an argument takes the next one as its value exactly if it is one or two dashes and the name, dashes read as underscores if need be, of a flag that is not boolean |
| `Argv.VisitsOn` | voicetts/src/main/jni/cpp/front/include/gflags/gflags.cc:1030-1119 | the scan goes on past such a value, past any other argument by one, and nowhere from a bare -- |
| `Argv.ParkedMembers` | voicetts/src/main/jni/cpp/front/include/gflags/gflags.cc:1030-1119 | exactly the visited arguments that are no options are parked |
| `Argv.RestMembers` | voicetts/src/main/jni/cpp/front/include/gflags/gflags.cc:1030-1119 | exactly what follows a visited bare -- is left unscanned |
| `Argv.SplitWithValue` | voicetts/src/main/jni/cpp/front/include/gflags/gflags.cc:763-819 | name=value gives the value to the flag of that name |
| `Argv.SplitAlone` | voicetts/src/main/jni/cpp/front/include/gflags/gflags.cc:763-819 | a name alone turns a boolean flag on and leaves any other without a value |
| `Argv.SplitNo` | voicetts/src/main/jni/cpp/front/include/gflags/gflags.cc:763-819 | no before the name of a boolean flag turns it off, whatever value follows |
| `Argv.SplitUnknown` | voicetts/src/main/jni/cpp/front/include/gflags/gflags.cc:763-819 | nothing else names a flag |
| `Argv.ParkedAreNonOptions` | voicetts/src/main/jni/cpp/front/include/gflags/gflags.cc:1035-1045 | only arguments that do not look like options are parked |
| `Argv.RestExactly` | voicetts/src/main/jni/cpp/front/include/gflags/gflags.cc:1030-1119 | something is left unscanned exactly if a visited bare -- has an argument after it |
| `Argv.ParkedExactly` | voicetts/src/main/jni/cpp/front/include/gflags/gflags.cc:1030-1119 | something is parked exactly if a visited argument is no option |
| `Argv.TailKeepsOrder` | voicetts/src/main/jni/cpp/front/include/gflags/gflags.cc:1030-1119 | the arguments left for the program keep their order if and only if no visited argument that is no option comes before a visited bare -- that something follows |
| `Argv.OnlyDashDashStops` | voicetts/src/main/jni/cpp/front/include/gflags/gflags.cc:1046-1053 | the scan stops at an argument exactly when it is a bare -- |
| `Argv.NoStopKeepsOrder` | voicetts/src/main/jni/cpp/front/include/gflags/gflags.cc:1030-1119 | without a bare -- the tail is exactly the parked arguments in their original order |
| `Argv.DashDashReordersEarlierArguments` | voicetts/src/main/jni/cpp/front/include/gflags/gflags.cc:1030-1119 | a -- b reaches the program as b, a |
| `Argv.MoveToEnd` | voicetts/src/main/jni/cpp/front/include/gflags/gflags.cc:1040-1042 | moves one argument to the end and the later ones up by one |
| `Argv.SortedIsPermutation` | voicetts/src/main/jni/cpp/front/include/gflags/gflags.cc:1030-1119 | the final arrangement is a permutation of the arguments |
| `Argv.PermuteArguments` | voicetts/src/main/jni/cpp/front/include/gflags/gflags.cc:1030-1103 | for every argv the in-place loop ends, keeps the program name, permutes the rest, and leaves options, then what follows a bare --, then the parked arguments, with the returned index between them |
| `Argv.RemoveFlags` | voicetts/src/main/jni/cpp/front/include/gflags/gflags.cc:1106-1111 | after removal the program sees its name and then exactly the rest and the parked arguments |
| `Flags.RunsKeepFlagsConsistent` | voicetts/src/main/jni/cpp/front/include/gflags/gflags.cc:589-595 | over any run of calls and direct writes, a flag whose last event is not a direct write and that is not marked modified has its default value |
| `Flags.ExplicitSettingSticks` | voicetts/src/main/jni/cpp/front/include/gflags/gflags.cc:854-897 | no setting of defaults, and no setting only if default, changes the value of a modified flag |
| `Flags.ReaderTracksSections` | voicetts/src/main/jni/cpp/front/include/gflags/gflags.cc:1270-1354 | a flag line takes effect exactly in the part before all patterns, or in a section one of whose pattern lines matches |
| `Flags.FileIsItsCalls` | voicetts/src/main/jni/cpp/front/include/gflags/gflags.cc:1270-1354 | the same for the first lines of any file and any mode |
| `Flags.ClassifyLines` | voicetts/src/main/jni/cpp/front/include/gflags/gflags.cc:1290-1345 | lines by how they begin: comments and empty lines are skipped, one or two dashes make a flag line, and any other line matches exactly if one of its space-separated words does |
| `Flags.NextLine` | voicetts/src/main/jni/cpp/front/include/gflags/gflags.cc:1279-1289 | a line holds no carriage return, and a newline only if a carriage return follows somewhere in the rest; only space is skipped before it, and nothing is left out |
| `Flags.LinesRunTogetherExactly` | voicetts/src/main/jni/cpp/front/include/gflags/gflags.cc:1279-1289 | some line holds a newline if and only if the text has a newline with something before it since the last carriage return and a carriage return anywhere after it |
| `Flags.TwoLinesBecomeOne` | voicetts/src/main/jni/cpp/front/include/gflags/gflags.cc:1279-1289 | two lines before a carriage return are read as one, whatever they hold |
| `Flags.SecondFlagIsSwallowed` | voicetts/src/main/jni/cpp/front/include/gflags/gflags.cc:1279-1322 | in a file that sets a and then b, with a carriage return only after b, no flag but a can change |
| `Flags.FlagRegistry.SetFlagLocked` | voicetts/src/main/jni/cpp/front/include/gflags/gflags.cc:854-897 | an explicit value always wins, a value for an untouched flag gives way to any other, a new default moves only an untouched value; failure changes neither value, the flag is consistent afterwards, and no other flag changes |
| `Flags.FlagRegistry.Save` | voicetts/src/main/jni/cpp/front/include/gflags/gflags.cc:1685-1700 | the backup lists every flag with its whole state |
| `Flags.FlagRegistry.Restore` | voicetts/src/main/jni/cpp/front/include/gflags/gflags.cc:1706-1715 | a flag gets the state saved under its own name unless a vanished name leads to it too, flags no saved name leads to stay as they are, and with all names still there everything is as saved |
| `Flags.FlagRegistry.ProcessOptionsFromString` | voicetts/src/main/jni/cpp/front/include/gflags/gflags.cc:1270-1354 | the file does what the settings on its applicable flag lines do one after the other, and fails if and only if one of them does not parse or is not valid when its turn comes |
| `Flags.FlagRegistry.ReadFlagsFromString` | voicetts/src/main/jni/cpp/front/include/gflags/gflags.cc:1779-1800 | succeeds exactly when no applicable setting fails, and then has their joint effect; a non-fatal failure leaves every flag's value, default and modified bit as they were |
| `LocalVectors.LocalVector.constructor` | voicetts/src/main/jni/cpp/front/limonp/LocalVector.hpp:28-30 | a new vector is empty and inline |
| `LocalVectors.LocalVector.Copy` | voicetts/src/main/jni/cpp/front/limonp/LocalVector.hpp:31-34 | a copy has the contents of the original, which keeps them, and shares no storage with it |
| `LocalVectors.LocalVector.Fill` | voicetts/src/main/jni/cpp/front/limonp/LocalVector.hpp:41-46 | n copies of one element |
| `LocalVectors.LocalVector.Assign` | voicetts/src/main/jni/cpp/front/limonp/LocalVector.hpp:53-66 | assignment copies another vector and frees exactly the old block; assigning a vector to itself empties it |
| `LocalVectors.LocalVector.PushBack` | voicetts/src/main/jni/cpp/front/limonp/LocalVector.hpp:80-86 | appends one element, doubling the capacity when full |
| `LocalVectors.LocalVector.Reserve` | voicetts/src/main/jni/cpp/front/limonp/LocalVector.hpp:87-101 | grows the storage, keeps the contents and frees exactly the old block |
| `LocalVectors.LocalVector.Clear` | voicetts/src/main/jni/cpp/front/limonp/LocalVector.hpp:117-122 | empties the vector, frees its block and goes back inline |
| `LocalVectors.LocalVector.Destroy` | voicetts/src/main/jni/cpp/front/limonp/LocalVector.hpp:47-51 | frees the block if there is one, and nothing else |

## Left out

- Unicode.Utf8ToUnicode32: the 16-bit converters `Utf8ToUnicode` and `UnicodeToUtf8`, the GBK ones and other string utilities are not modelled.
- FrontEnd.Cut: how a rune reads as a character is a parameter; the conversion of the source throws on byte strings that decode here but are not well-formed UTF-8.
- MPSegment.ZeroFrequencyLosesWords: any weight at or below the floor stands for the logarithm of zero, which is no real number.
- MPSegment.BestIsOptimal: weights are real numbers; IEEE rounding of sums is not modelled.
- HMMSegment.StatusIsOptimal: likewise, probabilities are real numbers.
- HMMSegment.Viterbi: requires a non-empty run, as its only caller never passes an empty one.
- BlockingQueue.NobodyStranded: says that a step is possible; errors returned by the threading library are not modelled.
- ThreadPool.ShutdownRunsEverythingOnce: requires `Start` to have finished; `Stop` without `Start` waits on threads that were never created. Exceptions thrown by tasks are swallowed by the worker and count as having run.
- Md5.Context.Update: requires at most 0xffffffc0 bytes per call, since beyond that the index of the block loop wraps around; the block function itself is a parameter.
- Md5.DigestChunks: reading the file and printing the digest in hexadecimal are not modelled.
- Numerals.TextNormalizer.MultiDigit2Text: says what the text is for digit strings only. `Digits2Text` and the regular-expression passes are left out.
- MergePasses.MergeForModify: requires a non-empty list, as the third-tone passes read the last word first.
- ToneSandhi.YiSandhi: requires a word other than the single character 第, whose second character the code would read.
- ToneSandhi.NeuralSandhi: takes the two pieces of the split word as given, with a non-empty first piece and matching lengths; how they are found is left out. It requires the list of neutral words not to contain the empty word.
- Argv.PermuteArguments: covers what the scan moves; error messages for unknown flags, and the setting of each flag on the way, are not part of it.
- Flags.FlagRegistry.ReadFlagsFromString: the recursion through the flags `flagfile`, `fromenv` and `tryfromenv`, the help flags that end the program, and text after a NUL character are not modelled.
- PoolOverQueue.ShutdownTerminates: requires that every `Add` has returned when `Stop` is called, and does not bound the number of spurious wakeups, which the threading library does not bound either.
- Flags.FlagRegistry.ProcessOptionsFromString: a flag line sets its flag; that setting `flagfile`, `fromenv` or `tryfromenv` reads further flags, without any bound on the nesting, is not modelled.
- LocalVectors.LocalVector.PushBack: takes the element by value; the source takes a reference, which may point into storage that growth frees. Allocation failure is not modelled.
- Trie.Trie.Create: deletion from the trie is left out; it removes the whole subtree of the first rune.
- WordRanges.GetWordFromRunes: offsets are unbounded; 32-bit overflow for sentences of 4 GB and more is not modelled.
- `FullSegment`, `QuerySegment` and `TextRankExtractor`, and the ranking in `KeywordExtractor` after its length check.
- Loading of dictionaries, models and word lists from files; the resulting maps and weights are taken as given.
- The Java layer, the JNI entry points, the neural models, logging, and build tooling.

# What these proofs are about

A Dafny model of seven algorithmic cores of pnex-rs, and proofs of what they keep:

- **Expressions** (`Calc*.dfy`): lexer, precedence-climbing parser, static validator, evaluator and variable list of the
  formula language. The parser is a class with a cursor, proved against a layered grammar; printing and parsing undo
  each other, and no shorter token list gives the same tree; what a tree means over the real numbers is defined apart
  from the evaluator; validator, evaluator and variable list agree; the strict `&&` and `||` are compared with
  short-circuit evaluation on whole trees. Numbers are an abstract type with abstract operations.
- **Diarization** (`Matching.dfy`, `Speaker*.dfy`, `Der*.dfy`, `Speaking.dfy`): the bounded,
  expiring label allocator over every run of calls and what it remembers of a voice, the diarization error rate and the
  speaking time.
- **AVI** (`Avi*.dfy`): writer and reader of the MJPEG container, down to the bytes, and the reader on any tree of chunks
  ("AVI RIFF File Reference", sections "AVI Main Header", "AVI Stream Headers", "Stream Data ('movi' List)" and "AVI
  Index Entries").
- **Loop guard** (`CanonicalJson.dfy`, `JsonText.dfy`, `LoopGuard.dfy`): canonical JSON text (string escapes of
  section 7 of RFC 8259) and the counter of repeated calls.
- **Word error rate** (`EditDistance.dfy`): two-row dynamic programming against edit scripts.
- **Transcripts** (`Repeat*.dfy`, `Segment*.dfy`): the cut of decoding loops and what a second cut finds, and
  transcription in parts.
- **Recordings** (`Playback.dfy`): the playback chain and the annotation drawn on a frame.

Code that updates state is a class or a method with loops, proved equal to a function of its inputs or of the old state;
the properties are lemmas about that function. `Basics.dfy` holds results, options, the order on strings and
a stable sort.

## Where the code differs from what is said of it

- `&&` and `||` evaluate both sides although the comment at `crates/pnex-core/src/calc.rs:342` says they short-circuit. The
  code is followed; `SucceedsExactlyWhenLazyHidesNothing` says, for every tree, when the difference shows.
- `min()` and `max()` are an arity fault for the validator and out of range for the evaluator; a call with the wrong number
  of arguments is an arity fault for the one and an unknown function for the other.
- Labels are bounded by the cap only while it is below 2^32: the search for a free label cuts the cap to 32 bits.
- A turn that ends before it starts makes the speaking time wrap around (`InvertedTurnBreaks`).
- A frame that does not start with FF D8 is written whole but placed elsewhere by the index (`FramesComeBack`).
- Cutting decoding loops twice may cut more than once (`SecondPassCanCut`): a loop can form where dropped items leave their
  neighbours side by side, and nowhere else (`SecondPassIdleIff`).
- The playback chain subtracts a tolerance from the end of the last kept segment. Within that tolerance of the least 64-bit
  number the subtraction wraps, and a segment is skipped that overlaps nothing (`LowEndSkips`).
- The difference of two annotation times may wrap too, and a far annotation then seems near (`FarEndIsDrawn`).

## Model

| member | source | states |
|---|---|---|
| `CalcLexer.NumberEnd` | crates/pnex-core/src/calc.rs:160-173 | the loop stops at the end of the longest number: digits and at most one dot |
| `CalcLexer.NameEnd` | crates/pnex-core/src/calc.rs:191-200 | the loop stops at the end of the name |
| `CalcLexer.ReadToken` | crates/pnex-core/src/calc.rs:159-239 | one token with its length, or the lexical error, as the token grammar `TokenAt` gives it |
| `CalcLexer.Lex` | crates/pnex-core/src/calc.rs:149-243 | the index loop gives the tokens of the text, or the first lexical error |
| `CalcLexer.NumberTextIs` | crates/pnex-core/src/calc.rs:160-189 | the spellings of numbers: digits with at most one dot, and at least one digit |
| `CalcLexer.NameIs` | crates/pnex-core/src/calc.rs:191-200 | the spellings of names: letters, digits and underscores, no digit first |
| `CalcLexer.LexUndoesSpelling` | crates/pnex-core/src/calc.rs:149-243 | for every list of tokens, every spelling of each and all blanks between them, as long as no spelling reads on into the next one (`2x` and `x.5` are fine): the text is read as exactly these tokens |
| `CalcLexer.LexesExactlySpellings` | crates/pnex-core/src/calc.rs:149-243 | the accepted texts: a text is read as a list of tokens exactly when it is blanks followed by such a spelling of them |
| `CalcGrammar.LevelIsClimb` | crates/pnex-core/src/calc.rs:344-361 | each level of the five-level left-associative grammar is a unary operand followed by one climb over all levels |
| `CalcGrammar.LevelStops` | crates/pnex-core/src/calc.rs:344-361 | a level ends only before a token that starts no operator of that level or a tighter one |
| `CalcGrammar.ClimbStep` | crates/pnex-core/src/calc.rs:344-361 | an operator of precedence p takes everything of level p + 1 as its right operand, and the climb goes on from the combined tree: the step that makes precedence climbing equal to the layered grammar |
| `CalcRules.ConstantsAreRead` | crates/pnex-core/src/calc.rs:428-433 | `pi` and `e`, not called, are read as the two constants at every level |
| `CalcRules.PlusIsIgnored` | crates/pnex-core/src/calc.rs:364-375 | a plus sign before an expression changes neither its tree nor its error |
| `CalcRules.TwoOperators` | crates/pnex-core/src/calc.rs:344-470 | for any two operators: the tighter one takes the middle operand, of equally tight ones the first, except for powers; each sign is its operator |
| `CalcRules.SignAndPower` | crates/pnex-core/src/calc.rs:364-393 | a sign before a power negates the power, one in the exponent belongs to the exponent |
| `CalcRules.ChoicesNestRight` | crates/pnex-core/src/calc.rs:330-340 | a choice in the last branch of a choice belongs to that branch |
| `CalcRules.OperatorsAreTyped` | crates/pnex-core/src/calc.rs:202-239 | how each operator is typed between two numbers, with or without blanks |
| `CalcParser.Parser.Bump` | crates/pnex-core/src/calc.rs:301-307 | gives the next token and moves past it; at the end nothing moves |
| `CalcParser.Parser.Expect` | crates/pnex-core/src/calc.rs:309-327 | takes the token asked for, or fails naming what stood there |
| `CalcParser.Parser.ParseExpr` | crates/pnex-core/src/calc.rs:330-340 | for every token list: the tree, the tokens left over and the error of the grammar of expressions, ternary included |
| `CalcParser.Parser.ParseBinary` | crates/pnex-core/src/calc.rs:344-361 | precedence climbing from any minimum precedence gives the same tree, the same tokens left and the same error as the layered grammar at that level |
| `CalcParser.Parser.ParseUnary` | crates/pnex-core/src/calc.rs:364-375 | signs, as the grammar says: a minus binds looser than a power |
| `CalcParser.Parser.ParsePow` | crates/pnex-core/src/calc.rs:379-393 | power, right-associative, with a signed exponent |
| `CalcParser.Parser.ParseArgs` | crates/pnex-core/src/calc.rs:410-420 | the arguments of a call and the tokens after them, or the first error |
| `CalcParser.Parser.ParsePrimary` | crates/pnex-core/src/calc.rs:395-448 | numbers, constants, variables, calls and parentheses, with the same errors as the grammar |
| `CalcPrinter.PrintReads` | crates/pnex-core/src/calc.rs:330-468 | a tree printed with only the parentheses level k needs is read back at that level, whatever may follow it |
| `CalcPrinter.ParseUndoesPrint` | crates/pnex-core/src/calc.rs:265-468 | for every tree without a variable named `pi` or `e`: parsing its printed tokens takes them all and gives the same tree |
| `CalcShortest.PrintIsShortest` | crates/pnex-core/src/calc.rs:287-468 | no token list that parses to a tree is shorter than the printed one |
| `CalcShortest.ParenthesesAreNeeded` | crates/pnex-core/src/calc.rs:287-468 | wherever the printer writes parentheses, at any level and before any tokens, the tree is not read back without them |
| `CalcNames.TokVarsAreVars` | crates/pnex-core/src/calc.rs:791-810 | for every token list that parses, the names the token scan picks are exactly the variables of the tree, and the tree can be printed |
| `CalcNames.ReprintIsStable` | crates/pnex-core/src/calc.rs:287-468 | parsing, printing and parsing again gives the same tree, for every token list that parses |
| `CalcEval.Analyze` | crates/pnex-core/src/calc.rs:524-580 | appends every fault of the tree in order, a call before its arguments, and keeps what was there |
| `CalcEval.AnalyzeAll` | crates/pnex-core/src/calc.rs:575-577 | the faults of all arguments, from left to right |
| `CalcEval.AnalyzeCall` | crates/pnex-core/src/calc.rs:539-574 | nothing is appended exactly for a call the evaluator can make, `min()` and `max()` excepted; else one error, which is right about the numbers of arguments for which the evaluator knows the name |
| `CalcEval.FaultsFollowTheText` | crates/pnex-core/src/calc.rs:524-580 | every call is judged once, by its name and number of arguments, in the order the calls are written |
| `CalcEval.TablesAgree` | crates/pnex-core/src/calc.rs:500-520 | a call the validator accepts is one the evaluator knows; they differ exactly on `min()` and `max()` |
| `CalcEval.EvalErrorsExplained` | crates/pnex-core/src/calc.rs:588-664 | every evaluation error is a run-time one, or one of the faults the analysis reports explains it |
| `CalcEval.SuccessMeetsNoFault` | crates/pnex-core/src/calc.rs:588-664 | an evaluation that succeeds met no fault: only an untaken ternary branch can hold one |
| `CalcEval.FiniteUnlessUnchecked` | crates/pnex-core/src/calc.rs:588-664 | a result is out of range exactly when it is an out-of-range literal or variable reached through signs and taken branches only |
| `CalcMeaning.OperatorMeans` | crates/pnex-core/src/calc.rs:608-656 | what each operator gives between two values: the real sum, difference and so on, 1 or 0 for comparisons and for `&&` and its counterpart; and exactly when it fails |
| `CalcMeaning.CallMeans` | crates/pnex-core/src/calc.rs:674-711 | exactly which calls give a value; `min` and `max` give the least and the greatest of their arguments |
| `CalcMeaning.EvalGivesMeaning` | crates/pnex-core/src/calc.rs:588-664 | over the real numbers, for every tree and environment: a value comes out exactly when every part that is evaluated has one, and it is the meaning of the tree, defined apart from the evaluator |
| `CalcEval.EvalDependsOnVars` | crates/pnex-core/src/calc.rs:588-664 | environments equal on the variables of the tree give the same result or the same error |
| `CalcEval.UnknownIsMissing` | crates/pnex-core/src/calc.rs:591-599 | an unknown-variable error names a variable of the tree that the environment lacks |
| `CalcLazy.StrictUnlessHidden` | crates/pnex-core/src/calc.rs:588-664 | for every tree: the value or the error is that of short-circuit evaluation, unless on its path a left side settles the answer and the right side fails, and then evaluation fails |
| `CalcLazy.SucceedsExactlyWhenLazyHidesNothing` | crates/pnex-core/src/calc.rs:342-343 | for every tree: a value comes out exactly when short-circuit evaluation gives one and passes over no operand that fails, and then it is the same value |
| `CalcLazy.StrictExample` | crates/pnex-core/src/calc.rs:614-615 | `0 && 1/0` and `(0 && 1/0) or 1` are divisions by zero here, and 0 and 1 with short-circuit |
| `Calc.EvalCalc` | crates/pnex-core/src/calc.rs:719-746 | text to value: lexical, syntax and evaluation errors in that order |
| `CalcMeaning.TextGivesMeaning` | crates/pnex-core/src/calc.rs:719-746 | a source text gives a value exactly when it has a tree whose evaluated parts all have one, and then the meaning of that tree |
| `Calc.ValidateCalc` | crates/pnex-core/src/calc.rs:751-787 | text to list of faults, empty when there is none |
| `Calc.CalcVariables` | crates/pnex-core/src/calc.rs:791-810 | strictly sorted, and for text that parses exactly the variables of its tree; empty when it has a lexical error |
| `Calc.ValidFailsOnlyAtRunTime` | crates/pnex-core/src/calc.rs:719-787 | text the validator passes can only fail with an unknown variable, a zero divisor or a result out of range, in every environment |
| `Calc.RejectedAlike` | crates/pnex-core/src/calc.rs:719-787 | text that does not parse gets the same error from both |
| `Calc.SuccessIsValidWhereTaken` | crates/pnex-core/src/calc.rs:719-787 | text that evaluates parses, and no fault lies on the evaluated path |
| `Calc.ListIsVars` | crates/pnex-core/src/calc.rs:791-810 | the sorted list is the only one with the variables of the tree |
| `Calc.ListIsEnough` | crates/pnex-core/src/calc.rs:791-810 | environments equal on the list evaluate alike, and one that defines all of it never gives an unknown-variable error |
| `Calc.WrittenTreeMeansTheTree` | crates/pnex-core/src/calc.rs:719-810 | a tree written out as text, with any blanks, is parsed, evaluated, validated and listed as that tree |
| `Matching.NoBlockingPair` | crates/pnex-asr/src/diarize.rs:170-180 | greedy over candidates best first: every candidate meets a chosen one at least as good |
| `Matching.GreedyIsHalfOptimal` | crates/pnex-asr/src/diarize.rs:170-180 | no one-to-one choice of candidates weighs more than twice the greedy one |
| `Matching.GreedyTakesTheFree` | crates/pnex-asr/src/diarize.rs:170-180 | a candidate is chosen exactly when no earlier chosen one shares a side with it |
| `SpeakerLinkers.SpeakerLinker.constructor` | crates/pnex-asr/src/diarize.rs:131-138 | no centroid, and a cap of at least 1 |
| `SpeakerLinkers.SpeakerLinker.Expire` | crates/pnex-asr/src/diarize.rs:145-149 | keeps, in order, the centroids heard within `ttl` |
| `SpeakerLinkers.SpeakerLinker.Normalize` | crates/pnex-asr/src/diarize.rs:155-158 | drops the voices that have no norm |
| `SpeakerLinkers.SpeakerLinker.Candidates` | crates/pnex-asr/src/diarize.rs:159-169 | the pairs of equal dimension at or above the threshold |
| `SpeakerLinkers.SpeakerLinker.Match` | crates/pnex-asr/src/diarize.rs:172-180 | the walk over the sorted pairs fills the voice-to-centroid and taken arrays of the greedy matching |
| `SpeakerLinkers.SpeakerLinker.FindLabel` | crates/pnex-asr/src/diarize.rs:195-197 | the least free label |
| `SpeakerLinkers.SpeakerLinker.LinkVoice` | crates/pnex-asr/src/diarize.rs:182-225 | one voice follows its centroid, opens one, evicts one or is left out: the whole new state |
| `SpeakerLinkers.SpeakerLinker.Link` | crates/pnex-asr/src/diarize.rs:153-227 | the new centroids and the answer of a whole call |
| `SpeakerLinking.CandidatesAre` | crates/pnex-asr/src/diarize.rs:159-172 | the candidate list holds exactly the eligible pairs, most similar first |
| `SpeakerLinking.MatchingHasNoBlockingPair` | crates/pnex-asr/src/diarize.rs:159-180 | every eligible pair is chosen, or its voice or its centroid was taken by a pair at least as similar |
| `SpeakerLinking.MatchingIsHalfOptimal` | crates/pnex-asr/src/diarize.rs:159-180 | with a threshold that is not negative, no matching of eligible pairs has more than twice the total similarity |
| `SpeakerMemory.ExpiredAreForgotten` | crates/pnex-asr/src/diarize.rs:145-149 | exactly the centroids heard at most `ttl` ago are kept, in their order |
| `SpeakerMemory.UsableAreNormalized` | crates/pnex-asr/src/diarize.rs:155-158 | the voices that have a norm, normalised, in their order |
| `SpeakerMemory.CandidatesInOrder` | crates/pnex-asr/src/diarize.rs:159-172 | the candidates are the pairs of equal dimension whose similarity reaches the threshold, most similar first, ties in the order they were found |
| `SpeakerLinkingFacts.AssignIsGreedy` | crates/pnex-asr/src/diarize.rs:173-180 | the two arrays record exactly the pairs of the greedy matching |
| `SpeakerLinkingFacts.FreshLabelIsFree` | crates/pnex-asr/src/diarize.rs:194-197 | below the cap the search for a free label always succeeds, so the fallback label is dead |
| `SpeakerLinkingFacts.AnswerIsOneToOneAndFull` | crates/pnex-asr/src/diarize.rs:151-227 | with distinct local indexes the answer labels exactly min(usable voices, cap) voices, within 1..=cap, no two alike |
| `SpeakerLinkingFacts.EvictionsTakeStalest` | crates/pnex-asr/src/diarize.rs:207-223 | a voice that evicts takes a centroid heard before any left untaken and any that a later voice of the call evicts, the older one of two heard at the same time, and answers with its label |
| `SpeakerLinkingFacts.LabelsFollowVoices` | crates/pnex-asr/src/diarize.rs:182-225 | for a whole call: a matched voice answers with the label its centroid had, so does one that evicts, evictions go from the least recently heard on, and a centroid left untaken stays as it was |
| `SpeakerMemory.VoicesAreRemembered` | crates/pnex-asr/src/diarize.rs:182-225 | what a call leaves in each centroid: one that was matched has followed its voice (normalised mean, weight up to 20), one opened or evicted holds the voice alone with weight 1 |
| `SpeakerMemory.CentroidsAreAllotted` | crates/pnex-asr/src/diarize.rs:193-218 | a new centroid has the least free label; centroids are evicted only when the cap is reached; who is left out comes after everyone without a match who is not |
| `SpeakerMemory.ClosestAreMatched` | crates/pnex-asr/src/diarize.rs:159-180 | a voice and a centroid closer to each other than to any other candidate are matched |
| `SpeakerMemory.HeardAgain` | crates/pnex-asr/src/diarize.rs:105-118 | a voice that opened or evicted a centroid and is heard again within `ttl` gets the same label, when it is similar enough to itself and closer to its centroid than either is to another |
| `SpeakerLinkingFacts.LinkLeavesFresh` | crates/pnex-asr/src/diarize.rs:145-225 | after a call each centroid was heard now, or was still fresh and is untouched |
| `SpeakerLinkingFacts.ReachableIsBounded` | crates/pnex-asr/src/diarize.rs:115-118 | over every run of `link` and `expire`: at most cap centroids, with distinct labels in 1..=cap |
| `SpeakerLinkingFacts.ReachableIsFresh` | crates/pnex-asr/src/diarize.rs:115-128 | over every run: every centroid was heard within `ttl` of the last call and weighs 1 to 20 voices |
| `SpeakerLinkers.LabelsCollide` | crates/pnex-asr/src/diarize.rs:195-197 | a cap of 2^32 or more lets some run give one label twice: the label limit is the cap cut to 32 bits |
| `SpeakerLinkers.LabelsDistinctIffCapFits` | crates/pnex-asr/src/diarize.rs:115-118 | labels stay distinct in every run exactly when the cap is below 2^32 |
| `DiarizationRun.FramesOf` | crates/pnex-asr/src/diarize.rs:268-277 | the labels active at every 10 ms before the last end, in both lists |
| `DiarizationRun.CountPairs` | crates/pnex-asr/src/diarize.rs:278-285 | for every pair of labels the number of frames where both speak |
| `DiarizationRun.RankPairs` | crates/pnex-asr/src/diarize.rs:286-289 | the one ranking of the pairs: most frames first, ties by name |
| `DiarizationRun.MapLabels` | crates/pnex-asr/src/diarize.rs:290-295 | the map built step by step is the greedy one |
| `DiarizationRun.CountCorrect` | crates/pnex-asr/src/diarize.rs:300-303 | the hypothesis labels of a frame mapped to a label that speaks there |
| `DiarizationRun.ComputeDer` | crates/pnex-asr/src/diarize.rs:267-310 | the whole count, on the turns: miss, false alarm, confusion and total are the sums over the 10 ms grid of what the labels with a turn around each moment give; it balances; there is no error whenever the hypothesis is the reference with its labels renamed one to one |
| `DiarizationTurns.FramesAreTurns` | crates/pnex-asr/src/diarize.rs:253-277 | there is a frame for every 10 ms before the last end, and it holds exactly the labels with a turn that started and has not ended |
| `DiarizationTurns.DerIsOnTurns` | crates/pnex-asr/src/diarize.rs:296-309 | the figures, moment by moment, from the sets of labels that speak |
| `DiarizationTurns.TotalIsSlots` | crates/pnex-asr/src/diarize.rs:304 | the total is 10 ms for every label and moment of the grid with a turn of that label around it |
| `DiarizationTurns.TotalIsSpeech` | crates/pnex-asr/src/diarize.rs:63-93 | for turns on the 10 ms grid the total is the speaking time of all the labels together |
| `DiarizationTurns.RankingIsOnTurns` | crates/pnex-asr/src/diarize.rs:278-289 | the ranking holds exactly the pairs of labels that share a moment, by how many they share, ties by the two names |
| `DiarizationTurns.MapTakesFreePairs` | crates/pnex-asr/src/diarize.rs:290-295 | a pair is mapped exactly when no earlier pair in the map has one of its labels |
| `DiarizationError.RankingUnique` | crates/pnex-asr/src/diarize.rs:286-289 | the ranking is determined by the frames, so the map does not depend on hash order |
| `DiarizationError.MappingIsGreedy` | crates/pnex-asr/src/diarize.rs:290-295 | the map is the greedy matching over the ranking, and one to one |
| `DiarizationError.CorrectIsBounded` | crates/pnex-asr/src/diarize.rs:299-307 | no frame has more correct labels than either side has labels, so the subtraction never goes below zero |
| `DiarizationError.AccountsBalance` | crates/pnex-asr/src/diarize.rs:296-309 | miss + confusion + correct is the total, and miss + false alarm + confusion is what the larger side has beyond the correct ones, over all frames |
| `DiarizationRenaming.GreedyPairsTwins` | crates/pnex-asr/src/diarize.rs:286-295 | between a list and its renaming, every pair the greedy map takes is active on exactly the same frames |
| `DiarizationRenaming.EveryNameMapped` | crates/pnex-asr/src/diarize.rs:286-295 | and every label that speaks at all is paired |
| `DiarizationRenaming.RenamingHasNoError` | crates/pnex-asr/src/diarize.rs:264-310 | labels are arbitrary: for every list of turns and every one-to-one renaming there is no miss, no false alarm and no confusion |
| `DiarizationCredit.GreedyMapIsHalfOptimal` | crates/pnex-asr/src/diarize.rs:286-295 | no one-to-one label map, the optimal one included, credits more than twice the correct milliseconds of the greedy map |
| `SpeakingTime.Sum` | crates/pnex-asr/src/diarize.rs:73-88 | the sweep over the sorted spans of one label |
| `SpeakingTime.Group` | crates/pnex-asr/src/diarize.rs:66-69 | the spans of every label, in order |
| `SpeakingTime.SpeakingMs` | crates/pnex-asr/src/diarize.rs:63-93 | exactly the labels present, strictly sorted, each with its time; for forward turns the milliseconds that at least one of its turns covers |
| `SpeakingTime.SpokenIsCovered` | crates/pnex-asr/src/diarize.rs:73-88 | the sweep gives the size of the union of the spans exactly when no inverted span stands alone before another one |
| `SpeakingTime.SpeakingIsSpeech` | crates/pnex-asr/src/diarize.rs:63-93 | the same for the turns of a label, in particular whenever each ends no earlier than it starts |
| `SpeakingTime.SpeechMembers` | crates/pnex-asr/src/diarize.rs:63-64 | the milliseconds of a label are those in one of its turns |
| `SpeakingTime.InvertedTurnBreaks` | crates/pnex-asr/src/diarize.rs:73-88 | an inverted span followed by another one gives 2^32 - 1 |
| `SpeakingTime.OrderNeverMatters` | crates/pnex-asr/src/diarize.rs:63-93 | lists with the same turns, each as often, inverted ones included, give each label the same time |
| `SpeakingTime.SameTurnsSameAnswer` | crates/pnex-asr/src/diarize.rs:63-93 | and so the same whole answer |
| `SpeakingTime.OrderDoesNotMatter` | crates/pnex-asr/src/diarize.rs:63-93 | for forward turns the number of times each is listed does not matter either |
| `AviFormat.LittleEndianIs` | crates/pnex-core/src/avi.rs:99-101 | the four computed bytes are the only ones with that little-endian value |
| `AviWriting.MakeChunk` | crates/pnex-core/src/avi.rs:152-161 | a chunk, padded to an even length |
| `AviWriting.MakeList` | crates/pnex-core/src/avi.rs:163-170 | a list |
| `AviWriting.MakeHead` | crates/pnex-core/src/avi.rs:74-123 | the `hdrl` list with the `avih`, `strh` and `strf` headers |
| `AviWriting.MakeMovi` | crates/pnex-core/src/avi.rs:126-136 | frames and index grown side by side: each entry places its frame from the `movi` mark |
| `AviWriting.WriteAvi` | crates/pnex-core/src/avi.rs:58-150 | the whole file, byte for byte; its headers and, below 4 GiB, its frames and index are as the next two rows say |
| `AviHeaders.HeadersAre` | crates/pnex-core/src/avi.rs:60-123 | at their places in the file, for any frames: size, rate over 1000, microseconds per frame rounded, bytes per second, frame count, longest frame, one stream, index flag, codec, picture rectangle, planes, depth and image size |
| `AviHeaders.FramesAreStored` | crates/pnex-core/src/avi.rs:126-150 | each frame whole after its header, padded with a zero when odd; behind them the index with a key-frame entry for each; the sizes of the file, of `movi` and of the index |
| `AviWriting.FilmNumbers` | crates/pnex-core/src/avi.rs:60-73 | the size is kept, and the rate is at least 1 and within half a thousandth of the frame rate asked for, from 0.001 to 10^6 |
| `AviWriting.AviWriter.Push` | crates/pnex-core/src/avi.rs:28-31 | appends one frame |
| `AviWriting.AviWriter.Finish` | crates/pnex-core/src/avi.rs:49-52 | the file of the frames pushed, in order |
| `AviReader.VisitShrinks` | crates/pnex-core/src/avi.rs:203-237 | one step of the walk takes at least 8 bytes from the ranges still to be walked, what it pushes included |
| `AviReader.VisitKeepsApart` | crates/pnex-core/src/avi.rs:203-237 | one step keeps the pending ranges pairwise disjoint, and no header visited so far, its own included, lies in any of them |
| `AviReader.WalkChunks` | crates/pnex-core/src/avi.rs:200-238 | total on any bytes, through the explicit stack: pending ranges stay pairwise disjoint, no two visited headers overlap, none lies in a pending range, so each byte is walked at most once |
| `AviReader.ReadSpec` | crates/pnex-core/src/avi.rs:184-283 | every frame returned lies inside the file, for any bytes |
| `AviReader.ReadAvi` | crates/pnex-core/src/avi.rs:184-283 | the reader as it runs gives that result, or the same error |
| `AviTrees.TreesAreRead` | crates/pnex-core/src/avi.rs:180-283 | any file of chunks and nested lists in whatever order and depth, unknown ones among them, with at most one of each known kind: size and rate are those of the headers; the frames are those the index names, by offsets of either kind, or else the `dc` chunks of `movi`; without `movi` it is refused |
| `AviTrees.ErrorsAre` | crates/pnex-core/src/avi.rs:180-214 | a file is no AVI file exactly when it does not begin as one; it has a truncated list exactly when it does and the walk comes upon a list header with fewer than four bytes after it |
| `AviReader.ReadIndex` | crates/pnex-core/src/avi.rs:242-263 | the frames of the index, relative offsets tried first |
| `AviReader.ReadMovi` | crates/pnex-core/src/avi.rs:264-273 | the fallback scan of `movi` |
| `AviRoundTrip.WalkWritten` | crates/pnex-core/src/avi.rs:200-238 | the walk over a written file ends with its size and rate, its `movi` list and its index |
| `AviRoundTrip.ReadUndoesWrite` | crates/pnex-core/src/avi.rs:58-283 | a file below 4 GiB is read back with the same width, height and rate and its frame list, and its RIFF size is the file length less 8; frames of any content |
| `AviRoundTrip.FramesComeBack` | crates/pnex-core/src/avi.rs:128-136 | every frame stands whole in the file, odd lengths included, and the index places it there exactly when it starts with FF D8 |
| `AviRoundTrip.IndexAgreesWithScan` | crates/pnex-core/src/avi.rs:242-273 | the list read through the index is the one the scan finds, exactly when every frame starts with FF D8 |
| `AviRoundTrip.JpegsComeBack` | crates/pnex-core/src/avi.rs:58-283 | for frames that start with FF D8 the reader returns exactly those frames, in order |
| `JsonText.TextIs` | crates/pnex-core/src/agents.rs:287-320 | the text of every kind of value; the members of an object stand in ascending order of their keys, each once |
| `JsonText.StringsDecode` | crates/pnex-core/src/agents.rs:298 | a reader of RFC 8259 section 7 gets a string back from its escaped form |
| `CanonicalJson.EscapeIsPrefixFree` | crates/pnex-core/src/agents.rs:298 | no escape of a character begins another one (RFC 8259 section 7) |
| `CanonicalJson.StringsReadBack` | crates/pnex-core/src/agents.rs:298 | where a quoted string ends is determined, so strings read back |
| `CanonicalJson.ValuesReadBack` | crates/pnex-core/src/agents.rs:287-320 | unique decoding: equal texts followed by anything that may follow a value come from equal values |
| `CanonicalJson.CanonicalIsInjective` | crates/pnex-core/src/agents.rs:287-320 | two values get the same text exactly when they are equal, objects read as maps |
| `LoopGuards.KeysInOrder` | crates/pnex-core/src/agents.rs:291-292 | the keys sorted, whatever the order they come in |
| `LoopGuards.Canonical` | crates/pnex-core/src/agents.rs:287-320 | the text built by appending is the canonical one |
| `LoopGuards.NoTextAfterBar` | crates/pnex-core/src/agents.rs:279 | no canonical text ends in a bar and another canonical text |
| `LoopGuards.KeyIsInjective` | crates/pnex-core/src/agents.rs:278-283 | for all tool names, bars included: two calls share a key exactly when they share the tool and the arguments up to key order |
| `LoopGuards.LoopGuard.Repeated` | crates/pnex-core/src/agents.rs:276-284 | over every run of calls: true exactly when at least three calls so far share tool and arguments up to key order, for fewer than 2^32 calls; their number counts modulo 2^32 beyond that |
| `EditDistances.FillRow` | crates/pnex-asr/src/wer.rs:32-36 | one row in place: each cell the distance of two prefixes |
| `EditDistances.EditDistance` | crates/pnex-asr/src/wer.rs:27-40 | two rows, swapped, give the distance |
| `EditDistances.DistanceIsLeastCost` | crates/pnex-asr/src/wer.rs:27-40 | the distance is the least cost over all edit scripts: one of that cost exists and none is cheaper |
| `EditDistances.DistanceSymmetric` | crates/pnex-asr/src/wer.rs:27-40 | symmetric |
| `EditDistances.TriangleInequality` | crates/pnex-asr/src/wer.rs:27-40 | triangle inequality, by composing scripts |
| `EditDistances.DistanceBounds` | crates/pnex-asr/src/wer.rs:27-40 | zero exactly on equal lists, at least the difference and at most the larger of the lengths |
| `EditDistances.WerAccumulator.Add` | crates/pnex-asr/src/wer.rs:50-55 | the sums over the corpus so far |
| `EditDistances.WerAccumulator.Wer` | crates/pnex-asr/src/wer.rs:57-63 | sum of distances over sum of reference words, 0 for none |
| `RepeatCollapse.CountCopies` | crates/pnex-asr/src/lib.rs:244-248 | the number of copies of a gram from a position on |
| `RepeatCollapse.FindCut` | crates/pnex-asr/src/lib.rs:243-254 | the first size whose gram is repeated too often |
| `RepeatCollapse.LoopMask` | crates/pnex-asr/src/lib.rs:236-258 | the mask filled in place |
| `RepeatCollapse.CollapseRepeats` | crates/pnex-asr/src/lib.rs:281-284 | the words that stay, compared by key |
| `RepeatCollapse.CollapseText` | crates/pnex-asr/src/lib.rs:265-280 | the words of the text are rewritten exactly when some gram follows itself too often, and then to those that stay |
| `RepeatRule.MaskFollowsRule` | crates/pnex-asr/src/lib.rs:236-258 | the cut as a rule on the items alone: walking from the first item, where 1 to 4 items follow themselves four times or more the least such number is taken with all its copies and the first three stay; elsewhere one item stays |
| `RepeatCollapse.RunsAreCutDown` | crates/pnex-asr/src/lib.rs:236-258 | the input is a list of runs, and what stays is the same runs, each cut down to `max` copies |
| `RepeatCollapse.KeptExactly` | crates/pnex-asr/src/lib.rs:236-258 | every item lies in one of the runs, and stays exactly when it lies in the first `max` copies of its gram there |
| `RepeatCollapse.DroppedRepeats` | crates/pnex-asr/src/lib.rs:236-258 | every dropped item lies in a run of more than `max` copies, past the first `max`, and equals the item one gram of that run, 1 to 4 places, before it |
| `RepeatCollapse.FirstOccurrenceKept` | crates/pnex-asr/src/lib.rs:236-258 | every item is kept or has an equal kept one before it: the first occurrence of every key survives |
| `RepeatCollapse.KeptIffNoLongRun` | crates/pnex-asr/src/lib.rs:236-258 | nothing is dropped exactly when no gram of 1 to 4 items follows itself more than `max` times anywhere |
| `RepeatCuts.LongRunsSpanJunctions` | crates/pnex-asr/src/lib.rs:236-258 | wherever the output has a gram more than three times in a row, items were dropped inside that stretch |
| `RepeatCuts.SecondPassIdleIff` | crates/pnex-asr/src/lib.rs:236-258 | a second pass changes nothing exactly when no such stretch lies across a place where items were dropped |
| `RepeatCuts.OnePassIsEnough` | crates/pnex-asr/src/lib.rs:236-258 | in terms of the input: where every item right after a cut run occurs once, a second pass changes nothing |
| `RepeatCollapse.SecondPassCanCut` | crates/pnex-asr/src/lib.rs:236-258 | otherwise it can: (a b b b b) four times becomes (a b b b) four times, and that is cut again |
| `SegmentRun.FindCuts` | crates/pnex-asr/src/lib.rs:97-103 | a cut in the middle of every long silence |
| `SegmentRun.TranscribeSpans` | crates/pnex-asr/src/lib.rs:92-130 | without a silence of two seconds, one plain call; else what the calls for the parts amount to, as the next row says |
| `SegmentText.CallsAmountTo` | crates/pnex-asr/src/lib.rs:109-129 | an error exactly when some call fails, and then that of the first; else the text is the trimmed answers that are not empty with a space between, in the order of the calls, and the words are those of each answer in turn, later by the start of its part in whole milliseconds |
| `SegmentText.CutsAre` | crates/pnex-asr/src/lib.rs:97-103 | the cuts are the middles of the silences of two seconds or longer between neighbours |
| `SegmentText.PartsAre` | crates/pnex-asr/src/lib.rs:86-113 | for spans in order, the parts run from cut to cut, from the first sample to the last |
| `SegmentCutting.PartsCoverSegment` | crates/pnex-asr/src/lib.rs:86-113 | for ordered disjoint spans: the parts join without a hole from the first sample to the last, none is empty, and each span lies in a single one |
| `SegmentCutting.NothingIsLost` | crates/pnex-asr/src/lib.rs:86-114 | the transcriber is given every sample once, in order |
| `SegmentCutting.CutsKeepClear` | crates/pnex-asr/src/lib.rs:81-103 | no cut comes nearer to speech than one second |
| `SegmentCutting.CutExactlyInLongSilence` | crates/pnex-asr/src/lib.rs:81-103 | neighbouring spans are cut apart exactly when the silence between them is two seconds or longer |
| `SegmentCutting.TranscriptOnClock` | crates/pnex-asr/src/lib.rs:91-128 | words in order within their part come out in order within the segment, although each offset is rounded down |
| `Playback.PlaybackChain` | crates/pnex-core/src/camera.rs:422-432 | the loop over the running end |
| `Playback.NextIsKept` | crates/pnex-core/src/camera.rs:425-428 | the rule: a segment is kept exactly when it starts no earlier than one second before the end of the last one kept, computed in 64 bits, or that end is the least number |
| `Playback.KeptNeverOverlap` | crates/pnex-core/src/camera.rs:418-432 | any two kept segments, not only neighbours, overlap by the tolerance at most, also where the running end moves back |
| `Playback.SkippedOverlapsIff` | crates/pnex-core/src/camera.rs:425-427 | a skipped segment overlaps the last kept one by more than the tolerance, exactly when that one ends at least the tolerance above the least 64-bit number |
| `Playback.KeptOrOverlaps` | crates/pnex-core/src/camera.rs:418-432 | with starts at least the tolerance above that number, each segment is kept or overlaps the last kept one by more than the tolerance |
| `Playback.LowEndSkips` | crates/pnex-core/src/camera.rs:425-427 | below it a segment is skipped without any overlap |
| `Playback.PartitionPoint` | crates/pnex-core/src/camera.rs:409 | the halving search finds how many annotations come before |
| `Playback.AnnotationAt` | crates/pnex-core/src/camera.rs:402-416 | with 64-bit differences that wrap: the two neighbours stand for a full scan (none exactly when all are further than the tolerance, else none is nearer and ties go to the earlier one), exactly when neither neighbour seems near by a wrapped difference without the other one being nearer |
| `Playback.FarEndIsDrawn` | crates/pnex-core/src/camera.rs:413-414 | an annotation at the greatest 64-bit time is drawn at the least one with a tolerance of 1 |

## Left out

- Token positions and the position, category and message of an error: an error is its code with its arguments.
- Floating point: formula numbers are an abstract type with abstract operations, `parse` included; similarities, rates and
  thresholds are real numbers, so signed zero, NaN and rounding do not appear. Embeddings are abstract, with a norm, a
  dimension, a dot product and a blend.
- CalcEval.SuccessMeetsNoFault: takes infinity and its opposite to be out of range, as they are in IEEE 754.
- CalcEval.FiniteUnlessUnchecked: takes a sign change to keep numbers in or out of range, as it does in IEEE 754.
- CalcMeaning.EvalGivesMeaning: the real numbers are exact; powers, the transcendental functions and rounding, and
  operations on infinities or on no number are parameters, the same for the evaluator and the meaning.
- CalcLazy.StrictExample: takes 0 and 1 to be in range, as they are in IEEE 754.
- SpeakerLinkingFacts.AnswerIsOneToOneAndFull: takes a cap below 2^32; `LabelsCollide` gives the run that breaks it beyond.
- A label is its number, without the `S` before it; the clock of the linker is an integer.
- Arithmetic that panics in a debug build (speaking time, loop guard counter, image size, word times, playback chain and
  annotations) wraps around here, as in a release build. Sizes and offsets in memory are 64 bits wide and taken not to overflow.
- AviRoundTrip.ReadUndoesWrite: files of 4 GiB and more, whose size fields wrap, are written as the code does but not read back.
- AviTrees.TreesAreRead: files below 4 GiB, made of whole chunks, with at most one chunk of each known kind; any other bytes
  get an error or frames inside the file (`ReadSpec`).
- A JSON number is identified by its printed text, so 0 and -0.0 are different values.
- SegmentCutting.TranscriptOnClock: takes a segment whose length in milliseconds fits the 32 bits of a word time. The offset
  is cut to 32 bits as in the code.
- RepeatCuts.LongRunsSpanJunctions: for the limit of three copies, which every call in the code passes; so the two results
  that rest on it.
- Splitting a text into words and joining them again (`RepeatCollapse.CollapseText` works on the words).
- Text normalisation: `normalize`, `proper_nouns`, `repeat_key` (a parameter here), trimming (a parameter here), Unicode case.
- `label_turns` (a lookup per turn), `label_words` (the turn that overlaps a word most), `speech_ms_of` (a sum of lengths),
  `words_from_tokens` (pieces joined up to the next word mark) and WAV decoding (a call into a library, then an average
  per frame): each is one pass without state between calls. They make inputs of the modelled code, whose properties hold
  for any turns, words, spans and samples.
- The transcriber, the voice detector and the models behind them: the transcriber is a parameter that may answer each call
  differently.
- The rest of the repository: server, web and command-line code, drivers, firmware, registers, field validators, and the
  foreign runtimes.

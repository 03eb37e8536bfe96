# XTE entailment core in Dafny

XTE is a recognising-textual-entailment engine. Given a text and a hypothesis, it answers "yes" or "no" and, for a "yes", gives a justification. This project models the engine's decision logic:

- **Decision pipeline.** `ModelRouter` sends a pair either to the tree-edit-distance model or to graph navigation. `ContextCheck` may veto the pair first (negation, antonym opposition, clause overflow, inverse specialisation). `Entailment.processPair` puts the two together.
- **Graph navigation.** `GraphNavigation` ranks relatedness scores by stable insertion sorts, picks head words and source/target pairs, and runs the bounded depth-first path search. It also computes path depth, cleans paths, chooses the shallowest path and renders it as a justification.
- **Tree edit distance.** `TreeEditDistance` normalises the distances and takes the smallest one. `Entailment.train` learns the threshold from a labelled dataset, using the precision, recall and F1 of `Accuracy`.
- **Readers and writers.**
  - `TreeFormatter` serialises a dependency graph as a bracketed tree.
  - The synonym, antonym and hypernym tables are built from their resources, and `IDFCalc` computes inverse document frequencies.
  - The dataset reader, the result writer and the `key = value` configuration reader are modelled.

Each Java file is one Dafny module. Code that updates state step by step keeps its loops, with their invariants; each such method is proved against a specification function, and the specification function's properties are proved as lemmas. The three tables, the configuration and the IDF calculator are classes whose maps their loading methods update. The NLP libraries, the relatedness web service and the RDF definition graph become parameters: a token list, a chunk list, a clause count, a relatedness response, and one round of graph exploration. Java `float` and `double` arithmetic is done on reals, and the NaN of 0/0 becomes `None`. An uncaught exception or a `System.exit` becomes an error result. The same holds where a parameter that stands for foreign code fails and the modelled code lets the failure escape: a parse that gives no tree, the tree-edit-distance constructor, a round of graph exploration.

## Model

| member | source | states |
|---|---|---|
| Evaluation.Precision | src/main/java/eval/Accuracy.java:11-14 | defined (not NaN) exactly when tp + fp > 0; then it lies in [0, 1], is positive exactly when tp > 0 and is 1 exactly when fp = 0 |
| Evaluation.Recall | src/main/java/eval/Accuracy.java:17-20 | defined exactly when tp + fn > 0; then it lies in [0, 1], is positive exactly when tp > 0 and is 1 exactly when fn = 0 |
| Evaluation.F1 | src/main/java/eval/Accuracy.java:23-26 | defined exactly when precision and recall are both defined and their sum is not 0 |
| Evaluation.F1OfCounts | src/main/java/eval/Accuracy.java:11-26 | the F1 of a confusion count is defined and positive exactly when there is a true positive, and it never exceeds 1 |
| Evaluation.Confusion | src/main/java/eval/Accuracy.java:36-56 | every result increments exactly one of tp, fp, fn, tn, so the four counts sum to the number of results |
| Evaluation.NoYesNoPositives | src/main/java/eval/Accuracy.java:40-55 | when no answer is "yes" in any letter case, there is neither a true nor a false positive |
| Evaluation.PartialResults | src/main/java/eval/Accuracy.java:29-59 | the counting loop yields exactly the confusion counts of the results (summing to their number); precision, recall and F1 are those of the counts |
| Evaluation.OfModel | src/main/java/eval/Accuracy.java:80-89 | a sub-list holds only results of the input with that model, and is never longer than the input |
| Evaluation.SummaryPartition | src/main/java/eval/Accuracy.java:80-89 | the "TreeEditDistance" list, the "GraphNavigation" list and the results of any other model together count every result exactly once |
| Evaluation.Summary | src/main/java/eval/Accuracy.java:75-91 | the partition loop yields exactly the results of "TreeEditDistance" and of "GraphNavigation", in order, together no more than the input |
| Antonyms.ParseLine | src/main/java/util/AntonymTable.java:31-32 | a line parses exactly when splitting it on '\|' gives a second field; the key is the first field and the antonyms the second split on ", " |
| Antonyms.LoadLine | src/main/java/util/AntonymTable.java:31-83 | loading a line fails exactly when it does not parse; a line listing no antonym leaves the table as it is, and otherwise its key is in the table afterwards |
| Antonyms.Load | src/main/java/util/AntonymTable.java:30-84 | the read loop finishes exactly when every line parses; the first malformed line ends it with the exception |
| Antonyms.AddReverse | src/main/java/util/AntonymTable.java:44-56 | afterwards the antonym has an entry listing the key; an entry that already lists the key is left as it is; every other word keeps its list |
| Antonyms.MergeAntonym | src/main/java/util/AntonymTable.java:38-57 | the key keeps every antonym it had and lists the new one; an antonym already listed leaves the key's list unchanged |
| Antonyms.MergeAll | src/main/java/util/AntonymTable.java:36-58 | the key stays in the table after its line is merged |
| Antonyms.GetAntonyms | src/main/java/util/AntonymTable.java:90-99 | an unknown word gets the empty list; a known one its stored list |
| Antonyms.MergeAntonymSymmetric | src/main/java/util/AntonymTable.java:38-57 | one pass of the merge loop keeps a symmetric table symmetric |
| Antonyms.MergeAllSymmetric | src/main/java/util/AntonymTable.java:36-58 | merging a whole line into an existing key keeps a symmetric table symmetric |
| Antonyms.ReverseAllSymmetric | src/main/java/util/AntonymTable.java:61-81 | while a new key's list is built, the table with the partial list in place stays symmetric |
| Antonyms.LoadLineSymmetric | src/main/java/util/AntonymTable.java:31-83 | loading one line into a symmetric table leaves it symmetric |
| Antonyms.LoadSymmetric | src/main/java/util/AntonymTable.java:30-84 | loading any sequence of lines into a symmetric table (the empty one included) leaves it symmetric |
| Antonyms.MergeAllFiles | src/main/java/util/AntonymTable.java:36-58 | after a merge the key's list holds everything it held before and every antonym of the line |
| Antonyms.LoadLineFiles | src/main/java/util/AntonymTable.java:31-83 | after a line is loaded, the key lists each of the line's antonyms and each of them lists the key |
| Antonyms.AntonymsSymmetric | src/main/java/util/AntonymTable.java:90-99 | on a symmetric table, if a is among the antonyms of w then w is among the antonyms of a |
| Antonyms.AntonymTable.constructor | src/main/java/util/AntonymTable.java:14-20 | the table starts empty (the resource file is read by InitializeTable) |
| Antonyms.AntonymTable.InitializeTable | src/main/java/util/AntonymTable.java:22-88 | the read loop succeeds exactly when every line parses, and the table is then the load of the lines; a symmetric table stays symmetric |
| Antonyms.AntonymTable.MergeLine | src/main/java/util/AntonymTable.java:36-58 | the in-place merge of a line into an existing key leaves the table its specification MergeAll describes |
| Antonyms.AntonymTable.MergeOne | src/main/java/util/AntonymTable.java:38-57 | one pass: the antonym joins the key's list if absent, and the key joins the antonym's list if absent, creating it when missing |
| Antonyms.AntonymTable.NewLine | src/main/java/util/AntonymTable.java:61-81 | a new key: every antonym gets its reverse entry, then the key is filed with the line's list verbatim |
| Config.DoubleBackslashes | src/main/java/util/Configuration.java:27 | the stored value is one character longer than the file's for every backslash in it |
| Config.HalveDoubled | src/main/java/util/Configuration.java:27 | doubling the backslashes loses nothing: reading each doubled backslash back as one gives the value in the file |
| Config.ParseLineSpec | src/main/java/util/Configuration.java:25-27 | a blank or '#' line sets nothing; a line with fewer than two " = " fields raises the exception; otherwise the key is the first field and the value the second with its backslashes doubled |
| Config.ParseLine | src/main/java/util/Configuration.java:25-27 | the only exception a line raises is the array index one, and a blank or '#' line never sets a parameter |
| Config.Load | src/main/java/util/Configuration.java:23-31 | the read loop fails only with the array index exception, and a successful read keeps every key set before it |
| Config.LoadFailsOnPrefix | src/main/java/util/Configuration.java:23-31 | once a line has raised the exception, the whole read fails |
| Config.LoadStep | src/main/java/util/Configuration.java:23-31 | in a successful read the last line parsed and was applied to the map the lines before it gave |
| Config.LoadLastWins | src/main/java/util/Configuration.java:29 | after a successful read a key holds the value of the last line that sets it: a later line overrides an earlier one |
| Config.ApplyThis | src/main/java/util/Configuration.java:29 | a line that sets a key leaves its value under that key |
| Config.ApplyOther | src/main/java/util/Configuration.java:29 | a line that sets another key, or nothing, leaves this key's value as it was |
| Config.LoadUnset | src/main/java/util/Configuration.java:23-31 | a key that no line sets is present after the read exactly when it was present before, with the same value |
| Config.Configuration.constructor | src/main/java/util/Configuration.java:12 | the parameter map starts empty |
| Config.Configuration.Read | src/main/java/util/Configuration.java:15-40 | the read loop succeeds exactly when no line raises the exception, and the map is then the load of the lines |
| Context.AreSynonyms | src/main/java/models/ContextCheck.java:30-43 | true exactly when word2 is filed among the noun or the verb synonyms of word1 |
| Context.OverlapOf | src/main/java/models/ContextCheck.java:133-137 | the overlap loop collects, in order, exactly the elements of the first list that the second contains |
| Context.RemoveRedundant | src/main/java/models/ContextCheck.java:140-142 | `removeIf` keeps, in order, exactly the elements not in the overlap |
| Context.CheckTotalOverlap | src/main/java/models/ContextCheck.java:46-81 | true exactly when tokenising succeeded and every non-stop text lemma is a non-stop hypothesis lemma (vacuously for a text of stop words only) |
| Context.TotalOverlap | src/main/java/models/ContextCheck.java:46-81 | every content lemma of the text is one of the hypothesis; a sentence always overlaps itself totally, and a tokenizer failure means no total overlap |
| Context.CheckClauseOverflow | src/main/java/models/ContextCheck.java:98-116 | raises the index exception exactly when either parse gave no tree; otherwise true exactly when the hypothesis has strictly more clauses than the text and there is no total overlap |
| Context.ClauseOverflow | src/main/java/models/ContextCheck.java:98-116 | the index exception exactly when a parse gave no tree; an overflow only with more hypothesis clauses than text clauses, and never under total overlap |
| Context.Leftovers | src/main/java/models/ContextCheck.java:123-142 | after the hypothesis lemmas found in the text are removed from both sides, a text lemma survives exactly when the hypothesis does not use it, and the other way round |
| Context.IsNegation | src/main/java/models/ContextCheck.java:119-160 | true exactly when the text leftover reads as a negation phrase of its length, or it is empty and the hypothesis leftover does |
| Context.Negation | src/main/java/models/ContextCheck.java:119-160 | a negation needs a leftover word on one side: sentences with the same lemmas are never negations of each other |
| Context.NegationPhrase | src/main/java/models/ContextCheck.java:145-148 | only one, two or three leftover words can read as a negation phrase |
| Context.NegationWords | src/main/java/models/ContextCheck.java:145-148 | for leftovers of blank-free lemmas the phrase test reads word by word: "not", "there no", "there not", "do not", "there be no" or "there be not", in any letter case |
| Context.AntonymIn | src/main/java/models/ContextCheck.java:194-199 | the inner loop finds a hit exactly when some antonym, '_' read as a blank, occurs in the hypothesis string |
| Context.SearchAntonyms | src/main/java/models/ContextCheck.java:191-200 | the outer loop is true exactly when some leftover text lemma has an antonym occurring in the hypothesis string |
| Context.IsOpposition | src/main/java/models/ContextCheck.java:163-203 | true exactly when some leftover text lemma (blanks read as '_') has an antonym inside the blank-joined hypothesis leftover |
| Context.Opposition | src/main/java/models/ContextCheck.java:163-203 | an opposition needs a text lemma the hypothesis lacks |
| Context.SpecializingHypernym | src/main/java/models/ContextCheck.java:236-241 | the inner loop finds a hypernym that is a text word, is not a synonym of the chunk word and is not "be", exactly when one exists |
| Context.SearchHypernyms | src/main/java/models/ContextCheck.java:231-242 | the outer loop is true exactly when some remaining hypothesis chunk has such a hypernym |
| Context.HasInverseSpecialization | src/main/java/models/ContextCheck.java:206-251 | false under total overlap or when chunking threw; otherwise, comparing chunks as whole (word, POS) pairs, true exactly when some hypothesis chunk the text lacks has a specialising hypernym among the words of the text chunks the hypothesis lacks |
| Context.InverseSpecialization | src/main/java/models/ContextCheck.java:206-251 | an inverse specialisation needs both chunk lists and a hypothesis chunk the text lacks, and never holds under total overlap |
| Context.CheckContext | src/main/java/models/ContextCheck.java:255-269 | raises the index exception exactly when neither negation nor opposition holds and a parse gave no tree; otherwise "no" with justification "null" exactly when one of negation, opposition, clause overflow or inverse specialisation holds, and the decision "null" if none does; no model is set |
| Reader.IdOf | src/main/java/data/DataReader.java:30 | the id exists exactly when the line has a blank; it is then the text before the first blank: the line starts with it and a blank, and it holds no blank |
| Reader.FieldOf | src/main/java/data/DataReader.java:31 | the field exists exactly when the position two characters after the first ':' is within the line, and it is the rest of the line from there |
| Reader.StepCounts | src/main/java/data/DataReader.java:28-50 | a blank line closes one record and leaves the state counter as it was; any other line moves the counter one step round 1, 2, 3 |
| Reader.Step | src/main/java/data/DataReader.java:28-50 | a blank line always closes the current record and starts an empty one; any other line adds no record, and can fail only while the line counter is 1, 2 or 3 |
| Reader.RunRecords | src/main/java/data/DataReader.java:27-51 | each blank line closes exactly one record, and the counter stays within 1..3 |
| Reader.RunLineCount | src/main/java/data/DataReader.java:27-51 | after a read the counter has moved one step round 1, 2, 3 for every non-blank line and none for a blank one |
| Reader.ReadCount | src/main/java/data/DataReader.java:47-52 | there is exactly one record more than there are blank lines, empty records included |
| Reader.ReadDataset | src/main/java/data/DataReader.java:27-52 | a successful read yields at least one record, the last being the record open when the lines ran out |
| Reader.ReadTextDataset | src/main/java/data/DataReader.java:16-63 | the read loop yields the records of the specification function ReadDataset (an escaping exception as an error), one more than the blank lines |
| Writer.ListString | src/main/java/data/DataWriter.java:35 | a list's string form is bracketed: at least two characters, starting with '[' and ending with ']', so it is never "null" |
| Writer.Lines | src/main/java/data/DataWriter.java:38-40 | one line per justification item, in order, each item followed by "\n" |
| Writer.BlockShape | src/main/java/data/DataWriter.java:29-43 | a block is the five header lines (id T:, id H:, id A:, Entailment:, Model:), then a "Justification:" line and one line per item exactly when the justification is not the "null" marker, then a blank line |
| Writer.JustificationAlwaysWritten | src/main/java/data/DataWriter.java:35-41 | as written, every block has a "Justification:" line, and the marker ["null"] of a "no" decision is printed as a justification line "null" |
| Writer.BlockAsWritten | src/main/java/data/DataWriter.java:29-43 | as written, a block is at least the five header lines, a "Justification:" line and a closing blank line |
| Writer.Block | src/main/java/data/DataWriter.java:29-43 | the corrected block starts with the five header lines and ends with a blank line |
| Writer.BlockAsWrittenDiffers | src/main/java/data/DataWriter.java:35-41 | the block as written equals the corrected one exactly when the justification is not the marker ["null"], and is then two lines longer |
| Writer.BlocksAgree | src/main/java/data/DataWriter.java:20-43 | the file as written equals the corrected file when no result carries the "null" marker, and is longer when one does |
| Writer.BlocksNoShorter | src/main/java/data/DataWriter.java:20-43 | the file as written is never shorter than the corrected file |
| Writer.ConcatAppend | src/main/java/data/DataWriter.java:47-49 | writing a list of records one after the other writes the concatenation of its parts |
| Writer.BlocksAppend | src/main/java/data/DataWriter.java:20-55 | for either block layout, the file written after one more result is the previous file followed by the new block |
| Writer.BlockOf | src/main/java/data/DataWriter.java:29-43 | the loop builds exactly the block as line 35 lets it through: the five header lines, always a "Justification:" line with the items, then a blank line |
| Writer.WriteEntailmentResult | src/main/java/data/DataWriter.java:14-56 | after the loop the file holds the blocks of all results as written, in input order; with no result nothing is written |
| Entailment.Labelled | src/main/java/core/Entailment.java:68-82 | labelling keeps every pair's gold label and distance and the number of pairs |
| Entailment.LabelledAnswers | src/main/java/core/Entailment.java:70-79 | after labelling at a candidate, a pair's answer is "yes" exactly when its distance is strictly below the candidate |
| Entailment.RelabelOverwrites | src/main/java/core/Entailment.java:242-243 | labelling at one candidate and then another is the same as labelling at the second only: earlier answers never leak into a later count |
| Entailment.Scores | src/main/java/core/Entailment.java:242-275 | one F1 per candidate, in scan order |
| Entailment.ChooseNext | src/main/java/core/Entailment.java:277-280 | one more candidate replaces the kept (threshold, F1) exactly when its F1 is defined and strictly greater |
| Entailment.ChooseBound | src/main/java/core/Entailment.java:227-228 | the kept F1 is never negative, no candidate's F1 exceeds it, and when it is 0 the threshold is still 0 |
| Entailment.ChooseFirst | src/main/java/core/Entailment.java:277-280 | a positive kept F1 is reached by the kept threshold, and every earlier candidate scored strictly less: ties go to the smallest candidate |
| Entailment.PositiveScore | src/main/java/core/Entailment.java:273-275 | a candidate with a positive F1 labels at least one gold "yes" pair "yes" |
| Entailment.SelectedHasTruePositive | src/main/java/core/Entailment.java:242-281 | a positive best F1 comes from one of the candidates, and that candidate yields at least one true positive |
| Entailment.SmallestNeverScores | src/main/java/core/Entailment.java:73-78 | a candidate no distance lies below labels nothing "yes", its F1 is NaN, so it is never chosen |
| Entailment.Distances | src/main/java/core/Entailment.java:230-238 | one distance per pair |
| Entailment.InsertDistinctElements | src/main/java/core/Entailment.java:237 | adding a distance to the set adds that value and nothing else |
| Entailment.InsertDistinctSorted | src/main/java/core/Entailment.java:60-64 | adding a distance keeps the candidate list strictly increasing |
| Entailment.AscendingSpec | src/main/java/core/Entailment.java:226-240 | the candidates are strictly increasing (no repeats) and are exactly the distances of the pairs |
| Entailment.UniqueAscending | src/main/java/core/Entailment.java:60-64 | two strictly increasing lists with the same elements are equal, so the candidates do not depend on the hash set's iteration order |
| Entailment.GetAnnotations | src/main/java/core/Entailment.java:68-82 | every pair of the array is rewritten in place to its labelling at the candidate |
| Entailment.CountAnswers | src/main/java/core/Entailment.java:246-271 | the counting loop returns the confusion counts of the labelled pairs (gold and answer compared ignoring case) |
| Entailment.SortedDistances | src/main/java/core/Entailment.java:226-240 | the loop over the pairs builds the sorted set of their distances |
| Entailment.ScoreAt | src/main/java/core/Entailment.java:243-275 | one scan step leaves the pairs labelled at the candidate and returns the candidate's F1 on the original pairs |
| Entailment.Rescore | src/main/java/core/Entailment.java:242-275 | scoring candidate k on pairs left labelled at candidate k-1 gives candidate k's F1 on the original pairs |
| Entailment.Train | src/main/java/core/Entailment.java:219-281 | the threshold and best F1 are what the first-strictly-best choice over the ascending candidates gives, and the pairs are left labelled at the last candidate |
| Entailment.EndOfLine | src/main/java/core/Entailment.java:194 | the end of the current line, when there is one, lies at or after the start and inside the text |
| Entailment.EndOfLineFirst | src/main/java/core/Entailment.java:194 | the end found is a line terminator and no terminator comes before it; with none found, the rest of the text has no terminator |
| Entailment.ReplaceStep | src/main/java/core/Entailment.java:194 | where no match starts, the first character is copied and the search moves on |
| Entailment.ReplaceFrom | src/main/java/core/Entailment.java:194 | every character in front of the first match is copied unchanged: the leftmost match is the one replaced |
| Entailment.NoMatchUnchanged | src/main/java/core/Entailment.java:194 | a text with no match anywhere comes back unchanged |
| Entailment.JoinedAppend | src/main/java/core/Entailment.java:188-191 | reading one more line appends that line and a '\n' to the buffer |
| Entailment.EndOfLineAt | src/main/java/core/Entailment.java:194 | in a line without terminators followed by '\n', the line ends at that '\n' |
| Entailment.MatchStartsLine | src/main/java/core/Entailment.java:194 | a key without line breaks matches at the start of a line only if the line starts with the key |
| Entailment.ReplaceSkipsLine | src/main/java/core/Entailment.java:194 | a line that does not contain the key is copied unchanged and the replacement continues after it |
| Entailment.ReplaceHere | src/main/java/core/Entailment.java:194 | a line starting with the key is replaced by the key, the new value and '\n', and the text after it is kept |
| Entailment.KeyOneLine | src/main/java/core/Entailment.java:194 | the key "tedthreshold = " has no line terminator |
| Entailment.ThresholdLine | src/main/java/core/Entailment.java:179-202 | when the first line containing the key starts with it, that line and only that line becomes the key followed by the new threshold |
| Entailment.NoThresholdLine | src/main/java/core/Entailment.java:179-202 | a configuration without a line containing the key is written back unchanged |
| Entailment.WriteThreshold | src/main/java/core/Entailment.java:179-202 | the text written back is the lines read, each followed by '\n', with the first threshold line replaced |
| Entailment.FirstPhrase | src/main/java/core/Entailment.java:93-104 | the index found holds the word at the start or the end of its chunk text and no earlier chunk does; with none found, no chunk holds it |
| Entailment.Entries | src/main/java/core/Entailment.java:89-105 | each token contributes at most one entry |
| Entailment.EntriesMembers | src/main/java/core/Entailment.java:89-105 | a value is an entry exactly when some token contributes it |
| Entailment.MatchedSpec | src/main/java/core/Entailment.java:85-107 | the matched list has no repeats and holds exactly the entries some token contributes |
| Entailment.MatchedFromChunks | src/main/java/core/Entailment.java:94-97 | every matched entry is a chunk's text tagged with the POS of a token whose normalised lemma starts or ends that chunk |
| Entailment.FindPhrase | src/main/java/core/Entailment.java:93-104 | the inner loop stops at the first chunk holding the word, or finds none |
| Entailment.FirstPhraseUnique | src/main/java/core/Entailment.java:93-104 | the two properties of the first chunk holding a word determine it |
| Entailment.MatchPhrases | src/main/java/core/Entailment.java:85-107 | the loop adds each token's entry unless already listed, which yields the matched list |
| Entailment.EntriesStep | src/main/java/core/Entailment.java:89-105 | one more token adds its entry, if it has one, at the end |
| Entailment.CombinedMembers | src/main/java/core/Entailment.java:130-145 | a candidate is combined exactly when the relatedness response for some text phrase and some hypothesis phrase holds it |
| Entailment.ForTextMembers | src/main/java/core/Entailment.java:134-144 | a text phrase's candidates are exactly the responses for it and some hypothesis phrase |
| Entailment.Best | src/main/java/core/Entailment.java:164-169 | min(n, 5) pairs are taken |
| Entailment.RankedSpec | src/main/java/core/Entailment.java:150-161 | the sort keeps every candidate (as a multiset), orders them by non-increasing \|score\|, and keeps candidates of equal \|score\| in the order they were combined |
| Entailment.SourceTargetPairsSpec | src/main/java/core/Entailment.java:112-176 | at most five pairs, the i-th the source and target of the i-th ranked candidate, each a combined candidate, and none left out scores higher in \|score\| than one taken |
| Entailment.AddResponses | src/main/java/core/Entailment.java:138-143 | every item of the relatedness response is appended as a candidate, in order |
| Entailment.AddForText | src/main/java/core/Entailment.java:134-144 | the loop over the hypothesis phrases appends the text phrase's combination |
| Entailment.CombinePairs | src/main/java/core/Entailment.java:127-145 | the nested loops produce the text-major combination |
| Entailment.GetSourceTargetPairs | src/main/java/core/Entailment.java:112-176 | with two cleaned token lists and both chunkings the result is the top pairs of the matched phrases; otherwise the exception leaves the empty list |
| Entailment.TopPairs | src/main/java/core/Entailment.java:147-169 | the in-place sort then the first five give the best pairs of the ranked candidates |
| Entailment.Shown | src/main/java/core/Entailment.java:319 | a property that is set is shown as itself |
| Entailment.Output | src/main/java/core/Entailment.java:319-323 | printing fails exactly when the justification was never set |
| Entailment.Settle | src/main/java/core/Entailment.java:301-317 | fails only with an unset context decision or the chosen model's own exception; a context "no" stays "no" with its justification and takes the chosen model's name; an unknown model leaves the context decision as it is |
| Entailment.ProcessPair | src/main/java/core/Entailment.java:290-326 | an exception of the router, then of the context check, escapes before any model runs; a printed answer starts with the model line |
| Entailment.OutputShape | src/main/java/core/Entailment.java:319-323 | the answer starts with the model and entailment lines, and has a justification block, holding the justification, exactly when it is not "null" |
| Entailment.VetoKept | src/main/java/core/Entailment.java:299-317 | a context "no" stands whatever the models would answer or raise, and the printed answer is the model line and "Entailment: no" only |
| Entailment.ModelAnswers | src/main/java/core/Entailment.java:301-317 | without a context "no", the routed model's decision is what is printed, and the exception its constructor or computation raises is what escapes |
| Entailment.EditDistanceAnswer | src/main/java/core/Entailment.java:290-326 | routed to tree edit distance without a veto, the answer says "yes" with the justification exactly when the smallest distance is within the threshold, and a bare "no" otherwise |
| Paths.CountedPrefix | src/main/java/models/GraphNavigation.java:227-243 | the depth counted over the first n steps is at most n |
| Paths.NextRole | src/main/java/models/GraphNavigation.java:224-232 | the role `getPathDepth` holds as the next one is that of a later step, or of the last step itself once the path is exhausted, and empty for a one-step path |
| Paths.Counted | src/main/java/models/GraphNavigation.java:234-241 | a counted step is never a source, head or synonym step, and a step of any other role that is not a supertype step is always counted |
| Paths.Depth | src/main/java/models/GraphNavigation.java:216-247 | a path over 50 steps gets depth 6 (one past the maximum, so search stops); any other path's depth is at most its length |
| Paths.UncountedPrefix | src/main/java/models/GraphNavigation.java:234-235 | source, supertype-head, head and synonym steps never add to the depth |
| Paths.UncountedDepth | src/main/java/models/GraphNavigation.java:216-247 | a path of at most 50 steps made only of such steps has depth 0 |
| Paths.PathDepth | src/main/java/models/GraphNavigation.java:216-247 | the counting loop, with its next-role and previous-role variables, returns the depth |
| Paths.CleanedUpTo | src/main/java/models/GraphNavigation.java:254-272 | the first two steps are kept, no kept middle step repeats the one kept before it, and every kept step comes from the path |
| Paths.Clean | src/main/java/models/GraphNavigation.java:250-277 | a cleaned path keeps the source, its supertype and the target, has at least three steps, and is no longer than the path when that has three or more |
| Paths.CleanTwoSteps | src/main/java/models/GraphNavigation.java:254-275 | a two-step path comes back with its last step written twice |
| Paths.CleanSteps | src/main/java/models/GraphNavigation.java:250-277 | every step of the cleaned path is a step of the path |
| Paths.CleanPath | src/main/java/models/GraphNavigation.java:250-277 | the loop builds the cleaned path |
| Paths.ShortestIndex | src/main/java/models/GraphNavigation.java:282-296 | the chosen path has the least depth, and every earlier path is strictly deeper: the first shallowest path wins |
| Paths.ShortestIndexNext | src/main/java/models/GraphNavigation.java:290-293 | one more path replaces the choice only when strictly shallower |
| Paths.GetShortestPath | src/main/java/models/GraphNavigation.java:282-296 | the loop returns the first path of least depth |
| Paths.StripArticles | src/main/java/models/GraphNavigation.java:712-715 | stripping never lengthens the concept, and a concept without a leading "to ", "a ", "an " or "the " is unchanged |
| Paths.RemoveAll | src/main/java/models/GraphNavigation.java:735 | removing every occurrence never lengthens the text |
| Paths.RenderStep | src/main/java/models/GraphNavigation.java:701-747 | a step fails to render only by reading the first character of an empty concept |
| Paths.HeadStepSilent | src/main/java/models/GraphNavigation.java:742-744 | a head step adds no text and makes its node the current concept |
| Paths.SupertypeSentence | src/main/java/models/GraphNavigation.java:709-724 | a supertype step followed by a supertype, synonym or target step is one sentence about the current concept, whose stripped supertype becomes current |
| Paths.KindOfSentence | src/main/java/models/GraphNavigation.java:718-722 | for a noun the sentence is "A X is a kind of Y" or "An X is a kind of Y" |
| Paths.WayOfSentence | src/main/java/models/GraphNavigation.java:718-722 | for a verb the sentence is "To X is a way of to Y", without the second "to" when Y ends in "ing" |
| Paths.RenderStepLocal | src/main/java/models/GraphNavigation.java:701-707 | a step renders alike in two paths that agree on it and on the role of the step after it |
| Paths.RenderPrefixAgree | src/main/java/models/GraphNavigation.java:699-748 | two paths that agree on their first n steps and on the role of step n render those n steps alike |
| Paths.LastStepNotRendered | src/main/java/models/GraphNavigation.java:699 | the justification depends on the last step only through its role |
| Paths.JustificationAgree | src/main/java/models/GraphNavigation.java:695-751 | two paths whose steps before the last render alike have the same justification |
| Paths.JustificationOfPrefix | src/main/java/models/GraphNavigation.java:695-751 | the justification is the text of every step but the last rendered in order, or the error of that rendering |
| Paths.RenderPrefixNext | src/main/java/models/GraphNavigation.java:699-748 | rendering one more step appends its text and moves to its concept, or fails with its error |
| Paths.ErrorPersists | src/main/java/models/GraphNavigation.java:699-748 | once rendering fails, every longer prefix fails with the same error: the exception ends the loop |
| Paths.RenderNext | src/main/java/models/GraphNavigation.java:700-747 | one pass of the loop renders one more step |
| Paths.WriteJustification | src/main/java/models/GraphNavigation.java:695-751 | the method returns the justification of the path, an index error for an empty path |
| Paths.Justification | src/main/java/models/GraphNavigation.java:695-751 | an empty path raises the index exception, and a one-step path has an empty justification |
| Paths.RenderSteps | src/main/java/models/GraphNavigation.java:699-748 | the loop renders every step but the last, stopping at the first failure |
| Ranking.ItemsSorted | src/main/java/models/GraphNavigation.java:100-115 | sorting the response permutes its terms |
| Ranking.Ranked | src/main/java/models/GraphNavigation.java:100-115 | the response sorted in place is the stable insertion sort of it by the key |
| Ranking.AreSynonymsAs | src/main/java/models/GraphNavigation.java:59-69 | two words are synonyms exactly when the second is filed among the synonyms of the first for that POS |
| Ranking.ComputeThreshold | src/main/java/models/GraphNavigation.java:73-90 | with no strictly positive drop between neighbours the threshold is 0.0; otherwise it is the \|score\| just after the largest drop, and every earlier drop is strictly smaller (the first of equal drops wins) |
| Ranking.AscendingNoDrop | src/main/java/models/GraphNavigation.java:100-118 | a list sorted by ascending \|score\| has no positive drop, so the threshold computed over it is 0.0 |
| Ranking.AtLeast | src/main/java/models/GraphNavigation.java:119-126 | the kept terms are at most as many as the entries |
| Ranking.AtLeastZero | src/main/java/models/GraphNavigation.java:119-126 | with threshold 0.0 every term is kept, in order |
| Ranking.KeepAtLeast | src/main/java/models/GraphNavigation.java:119-126 | the loop keeps, in order, the terms whose \|score\| reaches the threshold |
| Ranking.GetBestMatches | src/main/java/models/GraphNavigation.java:94-146 | as written the threshold is always 0.0, so the result is every term of the response by ascending \|score\| (reversed when descending order is asked), each as often as in the response; the one-term fallback is never taken |
| Ranking.BestMatches | src/main/java/models/GraphNavigation.java:94-146 | the best matches (the response sorted by |score|, reversed unless ascending) are a permutation of the response's terms |
| Ranking.TopTerms | src/main/java/models/GraphNavigation.java:165-191 | at most five terms, and no more than the response has |
| Ranking.TopTermsHighest | src/main/java/models/GraphNavigation.java:165-182 | every entry ranked past the fifth scores no higher in \|score\| than each of the first five |
| Ranking.GetHeadWords | src/main/java/models/GraphNavigation.java:149-196 | the segment left is the segment without stop words and low-IDF entries; an empty segment left gives no head words, otherwise the five best-related terms, reversed when ascending order is asked |
| Ranking.FirstTerms | src/main/java/models/GraphNavigation.java:187-191 | the forward loop collects the first maxWords terms in order |
| Ranking.FirstTermsBackwards | src/main/java/models/GraphNavigation.java:181-186 | the backward loop collects the first maxWords terms in reverse order |
| Ranking.SupertypesOf | src/main/java/models/GraphNavigation.java:205-209 | a key is collected for a segment exactly when the segment is among its roles |
| Ranking.SupertypesMembers | src/main/java/models/GraphNavigation.java:200-213 | a supertype is collected exactly when some segment is among its roles |
| Ranking.SupertypesOfSegment | src/main/java/models/GraphNavigation.java:205-209 | the inner loop collects, in key order, the keys filed with the segment |
| Ranking.FilterSupertypes | src/main/java/models/GraphNavigation.java:200-213 | the loops collect, segment by segment, every supertype whose roles contain the segment, and nothing else |
| Search.Terminal | src/main/java/models/GraphNavigation.java:663-668 | a round ends its path with the target step exactly when the target was matched, and with the dead-end step "null;null" otherwise |
| Search.Seed | src/main/java/models/GraphNavigation.java:311-314 | the first step is a source step whose POS is "VB" exactly when the source's POS starts with "VB", "NN" otherwise |
| Search.PushAll | src/main/java/models/GraphNavigation.java:317-659 | a round pushes at most one path per alternative it reports |
| Search.NonNull | src/main/java/models/GraphNavigation.java:689-690 | dropping dead ends keeps exactly the paths that do not end with "null;null", and never adds any |
| Search.PushAllSeeded | src/main/java/models/GraphNavigation.java:317-659 | extending the popped path keeps every path on the stack starting with the source step |
| Search.AdvanceKeepsPending | src/main/java/models/GraphNavigation.java:317-686 | a round, whatever its exploration reports, pops a non-empty path, counts itself, and unless the loop stops leaves a stack of paths from the source |
| Search.AdvanceKeepsInvariant | src/main/java/models/GraphNavigation.java:317-686 | a round, whatever its exploration reports, keeps the recorded paths distinct, each from the source to the target or a dead end, at least three steps long, and `targetReached` true exactly when one reaches the target |
| Search.RecordKeeps | src/main/java/models/GraphNavigation.java:672-678 | recording a path only when not already recorded keeps the recorded paths distinct and `targetReached` exact |
| Search.RunBounds | src/main/java/models/GraphNavigation.java:317-686 | a loop no round of which raises makes at most 200 rounds, at least one when the stack is not empty, and ends only on an empty stack, on 100 rounds with a target reached, or on 200 rounds |
| Search.RunTotal | src/main/java/models/GraphNavigation.java:317-686 | with an exploration that never raises, the loop always ends normally |
| Search.FirstRoundRaises | src/main/java/models/GraphNavigation.java:319-337 | an exception while exploring from the source step is the outcome of the whole search |
| Search.Advance | src/main/java/models/GraphNavigation.java:319-686 | a round counts itself, only ever appends to the recorded paths, at most one at a time, and never resets `targetReached` |
| Search.Run | src/main/java/models/GraphNavigation.java:317-686 | a loop that ends normally only adds rounds and recorded paths and never resets `targetReached` |
| Search.RunKeepsPaths | src/main/java/models/GraphNavigation.java:317-686 | when the loop ends normally the recorded paths are distinct and well formed, and `targetReached` is exact |
| Search.FoundPaths | src/main/java/models/GraphNavigation.java:301-693 | the search fails exactly when a round raises; otherwise the paths returned are distinct, each at least three steps from the source step to the target step, and there is one exactly when the search reached the target |
| Search.Found | src/main/java/models/GraphNavigation.java:301-693 | fails exactly when the loop does; otherwise returns exactly the recorded paths that do not end with the dead-end step |
| Search.NonNullReach | src/main/java/models/GraphNavigation.java:689-690 | of well-formed paths, the ones left after dropping dead ends all reach the target, and some are left exactly when one reached it |
| Search.NonNullDistinct | src/main/java/models/GraphNavigation.java:689-690 | dropping dead ends keeps distinct paths distinct |
| Search.PushPaths | src/main/java/models/GraphNavigation.java:317-659 | the pushes of a round are made in order, a guarded one skipped when the stack already holds its path |
| Search.Round | src/main/java/models/GraphNavigation.java:319-686 | one pass of the loop: the exploration's exception escapes; otherwise pop, push, finish with the terminal step, clean, record unless already recorded, count |
| Search.FindPaths | src/main/java/models/GraphNavigation.java:301-693 | the search loop and the final removal of dead ends return the found paths, or the exception of the first round that raises |
| Search.DropDeadEnds | src/main/java/models/GraphNavigation.java:689-690 | the loop keeps the paths not ending with "null;null", in order |
| Search.CollectedFrom | src/main/java/models/GraphNavigation.java:767-775 | every path collected from searches that all ended was found for one of the pairs |
| Search.CollectedEmpty | src/main/java/models/GraphNavigation.java:767-775 | nothing is collected exactly when every pair's search ends with no path |
| Search.CollectedFails | src/main/java/models/GraphNavigation.java:767-775 | collecting succeeds exactly when every pair's search does, and otherwise fails with the exception of the first pair whose search raises |
| Search.CollectedStops | src/main/java/models/GraphNavigation.java:767-775 | once a pair's search has raised, the later pairs change nothing |
| Search.GraphDecisionMeaning | src/main/java/models/GraphNavigation.java:760-788 | an answer means every pair's search ended, and a search that raises makes the whole computation raise; the model is always "GraphNavigation"; the answer is "yes" exactly when some pair's search found a path, the justifying path being one of those found, and otherwise "no" with justification "null" |
| Search.GraphDecision | src/main/java/models/GraphNavigation.java:760-788 | an exception of the searches escapes; no path at all gives "no" with justification "null"; any answer names the "GraphNavigation" model |
| Search.ComputeEntailment | src/main/java/models/GraphNavigation.java:760-788 | the loop over the pairs, stopped by the first search that raises, then the shortest path and its justification, give the graph decision |
| Hypernyms.PosTag | src/main/java/util/HypernymTable.java:35 | the tag is "NN" exactly for "noun" and "VB" for every other part of speech |
| Hypernyms.ParseLine | src/main/java/util/HypernymTable.java:31-33 | a line parses exactly when it has three '\|'-separated fields: the part of speech, then the synset and the hypernyms split on ", " |
| Hypernyms.LoadLine | src/main/java/util/HypernymTable.java:31-58 | loading a line fails exactly when it does not parse, and otherwise keeps every key already in the table |
| Hypernyms.Load | src/main/java/util/HypernymTable.java:30-59 | the read loop finishes exactly when every line parses; the first malformed line ends it with the exception |
| Hypernyms.MergeWord | src/main/java/util/HypernymTable.java:37-57 | the word's key is filed; a new key takes the line's hypernyms as they are; every other key is untouched |
| Hypernyms.GetHypernyms | src/main/java/util/HypernymTable.java:65-76 | a key never filed gives the empty list; a filed key its stored list |
| Hypernyms.MergeWordProps | src/main/java/util/HypernymTable.java:37-57 | filing a word loses nothing already filed and lists every hypernym of the line under the word |
| Hypernyms.MergeWordsProps | src/main/java/util/HypernymTable.java:37-58 | filing a synset loses nothing and lists every hypernym of the line under every word of the synset |
| Hypernyms.LineFiledGrows | src/main/java/util/HypernymTable.java:30-59 | a line whose hypernyms are filed stays filed as later lines add to the table |
| Hypernyms.LoadProps | src/main/java/util/HypernymTable.java:22-63 | a successful load keeps what the table held and files each hypernym of each line under every synset word of that line |
| Hypernyms.HypernymTable.constructor | src/main/java/util/HypernymTable.java:14-20 | the table starts empty |
| Hypernyms.HypernymTable.InitializeTable | src/main/java/util/HypernymTable.java:22-63 | the table is the load of the lines, and the method fails exactly when a line has fewer than three fields |
| Hypernyms.HypernymTable.FileLine | src/main/java/util/HypernymTable.java:37-58 | the loop files every word of the synset in turn |
| Hypernyms.HypernymTable.FileWord | src/main/java/util/HypernymTable.java:38-57 | one pass files one word |
| Hypernyms.ExtendHypernyms | src/main/java/util/HypernymTable.java:41-48 | for a key already filed, each hypernym is appended unless already listed |
| Hypernyms.CopyList | src/main/java/util/HypernymTable.java:51-56 | for a new key, the hypernyms are copied in order |
| Idf.CorpusFile | src/main/java/util/IDFCalc.java:14-23 | "WN", "WKT" and "WKP" read their own gloss corpus, and every other name reads the WBT one |
| Idf.BlankOthersChars | src/main/java/util/IDFCalc.java:57 | every character of the line is kept in place or replaced by a blank |
| Idf.CollapseBlanksChars | src/main/java/util/IDFCalc.java:57 | collapsing runs of blanks adds no character |
| Idf.SplitPieces | src/main/java/util/IDFCalc.java:57 | a split on a character gives pieces made of other characters of the text |
| Idf.TokensKept | src/main/java/util/IDFCalc.java:57 | every token holds only ASCII word characters, '-' and '\'', so no blank |
| Idf.Tokenized | src/main/java/util/IDFCalc.java:55-64 | one token list per line of the corpus |
| Idf.TokenizedAt | src/main/java/util/IDFCalc.java:55-64 | document i of the corpus is the token list of line i |
| Idf.Tokenize | src/main/java/util/IDFCalc.java:57 | no word of a document contains a blank |
| Idf.FreqsCount | src/main/java/util/IDFCalc.java:75-85 | a lower-cased word is counted exactly when it occurs, and its count is its number of occurrences over the whole corpus (not of documents) |
| Idf.Freqs | src/main/java/util/IDFCalc.java:75-85 | every counted word has a count between one and the number of words counted |
| Idf.Idfs | src/main/java/util/IDFCalc.java:88-92 | an IDF is stored for every counted word and no other |
| Idf.Lookup | src/main/java/util/IDFCalc.java:96-104 | a word the corpus never uses gets the maximum IDF 15.0 |
| Idf.GetIdfIgnoresCase | src/main/java/util/IDFCalc.java:96-104 | spellings that differ only in ASCII case get the same IDF |
| Idf.FrequentWordIdf | src/main/java/util/IDFCalc.java:90 | a word met more often than there are documents gets ln(0), because the integer division truncates to 0 |
| Idf.IdfCalc.constructor | src/main/java/util/IDFCalc.java:21-27 | the table holds ln(N / freq) for every word of the tokenised corpus, N being the number of lines |
| Idf.IdfCalc.BuildCorpus | src/main/java/util/IDFCalc.java:50-67 | the loop tokenises the lines in order |
| Idf.IdfCalc.CopyWords | src/main/java/util/IDFCalc.java:59-61 | the words of a split line are copied in order |
| Idf.IdfCalc.InitializeIdfs | src/main/java/util/IDFCalc.java:70-93 | the counts are taken, then every counted word's IDF is stored over what the table held |
| Idf.IdfCalc.CountWords | src/main/java/util/IDFCalc.java:75-85 | the counting loops give the occurrence counts of all the corpus's words |
| Idf.IdfCalc.CountDocument | src/main/java/util/IDFCalc.java:76-84 | the words of one document are added to the counts of the words before it |
| Idf.IdfCalc.StoreIdfs | src/main/java/util/IDFCalc.java:88-92 | the loop over the key set, in any order, stores ln(N / freq) for each counted word |
| Idf.IdfCalc.GetIdf | src/main/java/util/IDFCalc.java:96-104 | the stored IDF of the lower-cased word, or 15.0 when none is stored |
| Router.ChosenModel | src/main/java/core/ModelRouter.java:65-86 | the choice fails (on `get(0)`) exactly when tokenising failed; otherwise it is one of the two models, and a pair without content overlap always goes to tree edit distance |
| Router.CoveredHypothesisEditDistance | src/main/java/core/ModelRouter.java:74-83 | a hypothesis made only of text lemmas and stop words goes to tree edit distance |
| Router.GraphNavigationNeeds | src/main/java/core/ModelRouter.java:65-86 | graph navigation is chosen only for a pair that shares a content lemma and where each side has a content lemma the other lacks |
| Router.SamePairEditDistance | src/main/java/core/ModelRouter.java:74-83 | a pair whose sides tokenise alike goes to tree edit distance |
| Router.OverlapWords | src/main/java/core/ModelRouter.java:46-51 | the loop collects, in order, the hypothesis lemmas found among the text lemmas |
| Router.NullOverlap | src/main/java/core/ModelRouter.java:28-62 | true exactly when both sides tokenise and no content lemma of the hypothesis is a content lemma of the text; false when tokenising threw |
| Router.NoOverlapNoSharedContent | src/main/java/core/ModelRouter.java:38-55 | the overlap collected after dropping stop words is empty exactly when no content lemma is shared |
| Router.SharedOfOverlap | src/main/java/core/ModelRouter.java:46-51 | a collected overlap word is a content lemma of both sides |
| Router.NotOverlapping | src/main/java/core/ModelRouter.java:46-55 | with an empty overlap, no content token of the hypothesis has the lemma of a content token of the text |
| Router.ChooseEntailmentModel | src/main/java/core/ModelRouter.java:65-86 | the method makes the choice the routing function describes |
| Router.HypLeftover | src/main/java/core/ModelRouter.java:74-80 | a cleaned side is non-empty exactly when that side has a content lemma the other lacks |
| Sorting.InsertByKeyMultiset | src/main/java/core/Entailment.java:151-160 | sinking one element adds exactly that element |
| Sorting.InsertByKeySorted | src/main/java/core/Entailment.java:151-160 | sinking the next element into a sorted prefix keeps it sorted |
| Sorting.InsertAt | src/main/java/core/Entailment.java:151-160 | the element settles just after the last key not above its own, before every key above it |
| Sorting.InsertionSortedSorted | src/main/java/core/Entailment.java:150-161 | the sort orders the list by its key |
| Sorting.InsertionSortedPermutation | src/main/java/core/Entailment.java:150-161 | the sort is a permutation of its input |
| Sorting.WithKeyAppend | src/main/java/core/Entailment.java:150-161 | the elements of one key in two lists joined are those of each list joined |
| Sorting.InsertByKeyWithKey | src/main/java/core/Entailment.java:155-159 | only a strictly smaller key swaps, so an element settles after every element of its own key |
| Sorting.InsertionSortedStable | src/main/java/core/Entailment.java:150-161 | the sort is stable: for every key, its elements keep their original order |
| Sorting.SinkLast | src/main/java/models/GraphNavigation.java:101-114 | the inner loop sinks a[i] into the sorted prefix by adjacent swaps and leaves the rest of the array alone |
| Sorting.SwapBack | src/main/java/models/GraphNavigation.java:109-112 | one swap exchanges a[j] and a[j-1] and nothing else |
| Sorting.InsertionSort | src/main/java/models/GraphNavigation.java:100-115 | the array ends as the stable insertion sort of its old contents |
| Synsets.PosTag | src/main/java/util/SynsetTable.java:40 | two letters: "NN" exactly for "noun", "VB" exactly for "verb", "JJ" exactly for "adjective", and "RB" for anything else |
| Synsets.ParseLine | src/main/java/util/SynsetTable.java:31-32 | a line parses exactly when it has a second '\|'-separated field; its part of speech is the first field and its words the second split on ", " |
| Synsets.LoadLine | src/main/java/util/SynsetTable.java:31-66 | loading a line fails exactly when it does not parse; a synset of a single word leaves the table as it is |
| Synsets.Load | src/main/java/util/SynsetTable.java:30-67 | the read loop finishes exactly when every line parses; the first malformed line ends it with the exception |
| Synsets.GetSynonyms | src/main/java/util/SynsetTable.java:73-84 | a key never filed gives the empty list; a filed key its stored list |
| Synsets.MergeWordProps | src/main/java/util/SynsetTable.java:43-64 | filing a word loses nothing already filed, lists every other word of the line under it, and never files a word as its own synonym |
| Synsets.MergeWordGrows | src/main/java/util/SynsetTable.java:45-64 | filing a word only appends to the lists already filed |
| Synsets.MergeWordFiles | src/main/java/util/SynsetTable.java:45-64 | after filing a word, every other word of the line is among its synonyms |
| Synsets.MergeWordNoSelf | src/main/java/util/SynsetTable.java:42-64 | filing a word never lists any word as its own synonym |
| Synsets.MergeWordsProps | src/main/java/util/SynsetTable.java:42-65 | filing a line loses nothing, lists every word of the line under every other word of it, and never files a word as its own synonym |
| Synsets.LineFiledGrows | src/main/java/util/SynsetTable.java:30-67 | a line whose words are filed stays filed as later lines add to the table |
| Synsets.LoadLineProps | src/main/java/util/SynsetTable.java:31-66 | a parsed line, one-word lines included, leaves every other word of the line filed under each of its words, loses nothing and files no word as its own synonym |
| Synsets.LoadProps | src/main/java/util/SynsetTable.java:22-71 | a successful load keeps what the table held, files each word of each line under every other word of that line, and never lists a word as its own synonym |
| Synsets.NotOwnSynonym | src/main/java/util/SynsetTable.java:73-84 | the synonyms returned for a word never include the word |
| Synsets.SynsetTable.constructor | src/main/java/util/SynsetTable.java:14-20 | the table starts empty |
| Synsets.SynsetTable.InitializeTable | src/main/java/util/SynsetTable.java:22-71 | the table is the load of the lines, and the method fails exactly when a line has no second field |
| Synsets.SynsetTable.FileLine | src/main/java/util/SynsetTable.java:42-65 | the loop files every word of the line in turn |
| Synsets.SynsetTable.FileWord | src/main/java/util/SynsetTable.java:43-64 | one pass files one word |
| Synsets.ExtendSynonyms | src/main/java/util/SynsetTable.java:46-53 | for a key already filed, each other word of the line is appended unless listed |
| Synsets.OtherWords | src/main/java/util/SynsetTable.java:56-63 | for a new key, the other words of the line are copied in order |
| Text.LastIndexOf | src/main/java/util/TextHandler.java:105 | -1 exactly when the character is absent; otherwise a position holding it with none after it |
| Text.DropLastWord | src/main/java/util/TextHandler.java:105 | with an underscore, the entry is cut just before its last underscore, which removes exactly one underscore; without one it becomes "" |
| Text.DropLastWordsProps | src/main/java/util/TextHandler.java:104-106 | n passes over an entry of m underscore-joined words keep the prefix of its first m - n words when n < m, and give "" when n >= m |
| Text.RemoveLastWords | src/main/java/util/TextHandler.java:99-113 | an entry without an underscore gives "" whatever the count |
| Text.RemoveLastWordsLoop | src/main/java/util/TextHandler.java:99-113 | the loop removes the last n words: a prefix with n fewer underscores when there are at least n, "" otherwise |
| Text.ReverseList | src/main/java/util/TextHandler.java:116-125 | the list read backwards: same length, element i is element n-1-i |
| Text.JoinBlankSpaced | src/main/java/util/TextHandler.java:163-168 | appending each word and a blank gives the words joined by single blanks, plus one trailing blank |
| Text.JoinSpacedEnds | src/main/java/util/TextHandler.java:163-170 | words without trimmable characters join into a text that neither starts nor ends with one |
| Text.ListToString | src/main/java/util/TextHandler.java:161-171 | the words each followed by a blank, trimmed; for words without blanks or control characters, the words joined by single blanks |
| Text.ListStringSpaced | src/main/java/util/TextHandler.java:161-171 | trimming removes only the final blank when no word holds a trimmable character |
| Text.StopWordIgnoresCase | src/main/java/util/TextHandler.java:484-487 | spellings that differ only in ASCII case are stop words together |
| Text.VowelLower | src/main/java/util/TextHandler.java:472-482 | a vowel is a character whose lower case is a, e, i, o or u |
| Text.Capitalize | src/main/java/util/TextHandler.java:463-469 | same length; a non-empty word gets its first character upper-cased and keeps the rest |
| Text.CapitalizeSameLetters | src/main/java/util/TextHandler.java:463-469 | capitalising changes case only: the word and the result are equal ignoring case |
| Text.Words | src/main/java/util/TextHandler.java:424-425 | one lemma per token, in order |
| Text.WithoutWords | src/main/java/util/TextHandler.java:435-436 | the tokens kept are exactly those whose lemma is not listed |
| Text.WithoutStopWords | src/main/java/util/TextHandler.java:439-440 | the tokens kept are exactly those whose lemma is not a stop word |
| Text.Overlap | src/main/java/util/TextHandler.java:427-432 | a lemma is in the overlap exactly when it is a lemma of both the text and the hypothesis |
| Text.RemoveWords | src/main/java/util/TextHandler.java:435-436 | the removal loop keeps, in order, the tokens whose lemma is not listed |
| Text.RemoveStopWords | src/main/java/util/TextHandler.java:439-440 | the removal loop keeps, in order, the tokens whose lemma is not a stop word |
| Text.CleanPair | src/main/java/util/TextHandler.java:416-460 | empty exactly when tokenising threw; otherwise two lists: the hypothesis tokens whose lemma is neither in the text nor a stop word, and the text untouched when that list is empty, else the text tokens whose lemma is neither in the hypothesis nor a stop word; each list is exactly the in-order filter (`WithoutStopWords` of `WithoutWords` by the overlap), so token order and repeats are kept |
| Text.HighIdf | src/main/java/util/TextHandler.java:392-412 | an entry survives exactly when it is neither a noun under IDF 4.0 nor a verb under IDF 6.0 |
| Text.RemoveLowIdf | src/main/java/util/TextHandler.java:392-412 | collecting the low-IDF entries and removing every entry equal to one of them leaves the surviving entries in order |
| Ted.ReadThreshold | src/main/java/models/TreeEditDistance.java:38-39 | the threshold is read exactly when the "tedthreshold" key is present and its value parses as a float; a missing key fails with a null-pointer error and an unparsable value with a number-format error |
| Ted.Round | src/main/java/models/TreeEditDistance.java:73 | the nearest integer, halves rounded up, saturated to the 32-bit int range |
| Ted.NormalizeDistance | src/main/java/models/TreeEditDistance.java:69-75 | a size difference of 0 counts as 1, so it never divides by zero; the result lies in the int range and, away from its ends, is within one half of the distance per unit of difference in hundredths |
| Ted.NormalizeExamples | src/main/java/models/TreeEditDistance.java:69-75 | 10.0 over a size difference of 5 is 200, 0.0 over 0 is 0, and 1.0 over 3 is 33 |
| Ted.TreeDiff | src/main/java/models/TreeEditDistance.java:98 | the absolute difference of the node counts |
| Ted.Dist | src/main/java/models/TreeEditDistance.java:94-100 | a normalised distance is a whole number within the int range |
| Ted.RowStep | src/main/java/models/TreeEditDistance.java:91-106 | folding one text tree's row into the running minimum keeps it a lower bound of every pair seen and, once a pair is seen, the distance of one of them |
| Ted.RowMinimum | src/main/java/models/TreeEditDistance.java:92-105 | the inner loop returns a value no larger than the minimum so far or any distance of the row, and equal to one of them |
| Ted.ComputeDistance | src/main/java/models/TreeEditDistance.java:78-109 | the smallest normalised distance over all (text tree, hypothesis tree) pairs, attained by one of them, and Float.MAX_VALUE when either side has no tree |
| Ted.Decide | src/main/java/models/TreeEditDistance.java:144-151 | model "EditDistance"; "yes" with the syntactic-variation justification exactly when the distance is within the threshold, "no" with "null" otherwise |
| Ted.ComputeEntailment | src/main/java/models/TreeEditDistance.java:113-154 | "yes" exactly when some pair of trees is within the threshold (or, with no pair, when the threshold reaches Float.MAX_VALUE), with the matching justification; the model is always "EditDistance" |
| Trees.Vertices | src/main/java/util/TreeFormatter.java:59-61 | the vertex set is exactly the indices below the number of lemmas |
| Trees.BalanceAppend | src/main/java/util/TreeFormatter.java:71-72 | the brace balance ('{' count minus '}' count) of a concatenation is the sum of the parts' balances |
| Trees.BalanceNoBraces | src/main/java/util/TreeFormatter.java:71-72 | a brace-free word has balance 0 and stays brace-free when lower-cased |
| Trees.Close | src/main/java/util/TreeFormatter.java:26-41 | "}}" extends the tree by two characters, ends it with '}' and lowers its balance by 2 |
| Trees.EdgeOpeningBalance | src/main/java/util/TreeFormatter.java:32 | with a brace-free relation and target lemma, the text opening an edge raises the balance by exactly 2 |
| Trees.ReachStep | src/main/java/util/TreeFormatter.java:30-36 | the target of an edge out of a reachable vertex is reachable |
| Trees.ClosedHoldsReach | src/main/java/util/TreeFormatter.java:20-43 | a visited set closed under edges that holds the start vertices holds every vertex they reach |
| Trees.Expand | src/main/java/util/TreeFormatter.java:20-43 | what `getAllChildren` appends for a node: it ends in "}}", is "}}" alone for a node without edges, and leaves the node and everything visited before in the visited set |
| Trees.ExpandFrom | src/main/java/util/TreeFormatter.java:30-40 | the edges of a node from the k-th on, in order: every such target ends up visited, nothing visited is forgotten, and with no edge left nothing is written |
| Trees.ExpandOne | src/main/java/util/TreeFormatter.java:31-39 | one edge: the text starts with "{" relation "{" lower-cased lemma; the target ends up visited, and a target already visited changes nothing in the visited set |
| Trees.RootSegment | src/main/java/util/TreeFormatter.java:54-56 | what one root adds: it opens with '{', still ends with '}' after the last brace is removed, and leaves the root visited |
| Trees.RootsWalk | src/main/java/util/TreeFormatter.java:48-57 | the roots' segments in root order; every root taken is visited afterwards |
| Trees.RootsWalkGrows | src/main/java/util/TreeFormatter.java:53-57 | one more root only appends to the text, and the visited set only grows |
| Trees.UnreachedWalk | src/main/java/util/TreeFormatter.java:63-68 | the unreached vertices' lemmas and expansions in the order taken; every vertex taken is visited afterwards and nothing visited is forgotten |
| Trees.NothingTaken | src/main/java/util/TreeFormatter.java:59-68 | when the vertices taken, each unvisited at its turn, complete the visited set, none was taken exactly when the set was already complete |
| Trees.GetAllChildren | src/main/java/util/TreeFormatter.java:20-43 | the tree gains exactly `Expand`'s text for the node and the visited set becomes `Expand`'s; the node is marked visited; everything newly visited is reachable from the walk's start and the visited set ends closed under edges; the tree ends with '}', and on brace-free input its balance drops by exactly 2 |
| Trees.ExpandEdges | src/main/java/util/TreeFormatter.java:30-40 | the loop over a node's edges appends exactly `ExpandFrom`'s text from edge 0 and leaves its visited set; every target is visited, the visited set stays reachable and closed, and on brace-free input the balance is unchanged |
| Trees.ExpandEdge | src/main/java/util/TreeFormatter.java:31-39 | one edge appends exactly `ExpandOne`'s text and leaves its visited set; its target is visited afterwards, and on brace-free input the balance is unchanged whether the target is expanded or closed with "}}" |
| Trees.WalkRoot | src/main/java/util/TreeFormatter.java:53-57 | one root appends exactly its `RootSegment` and is visited afterwards; "{", the expansion and the removed last brace leave the balance unchanged on brace-free input |
| Trees.WalkUnreached | src/main/java/util/TreeFormatter.java:63-68 | one unreached vertex appends exactly its lower-cased lemma and its expansion, and is visited afterwards; without an opening "{" the balance drops by 2 on brace-free input |
| Trees.WalkRoots | src/main/java/util/TreeFormatter.java:48-57 | the roots' loop builds exactly `RootsWalk` over all roots; every root is visited, every visited vertex is reachable from a root, the set is closed under edges, and the balance is 0 on brace-free input |
| Trees.WalkAllUnreached | src/main/java/util/TreeFormatter.java:59-68 | the loop appends exactly `UnreachedWalk`'s text for the order the vertices were taken in, each one unvisited at its turn, and takes none when the roots visited everything; afterwards every vertex is visited; on brace-free input the balance is unchanged exactly when no vertex was left unvisited by the roots |
| Trees.TakeUnreached | src/main/java/util/TreeFormatter.java:59-68 | the loop itself: it ends with every vertex visited, appends exactly `UnreachedWalk`'s text for the order taken, each vertex unvisited at its turn, and on brace-free input lowers the balance by 2 per vertex taken |
| Trees.WalkNext | src/main/java/util/TreeFormatter.java:63-67 | one round of that loop: the vertex taken is appended to the order, the tree and visited set still equal the walk over the longer order, the visited set stays closed, and the balance drops by 2 on brace-free input |
| Trees.AllReachedSelf | src/main/java/util/TreeFormatter.java:63-66 | with every vertex as a start, every vertex is reached |
| Trees.ClosedCoversReach | src/main/java/util/TreeFormatter.java:53-68 | after the roots' walk the visited set is all vertices exactly when every vertex is reachable from a root |
| Trees.BuildTree | src/main/java/util/TreeFormatter.java:48-68 | the two loops of `convertToTree` before the count check: the tree is exactly the roots' segments followed by the unreached vertices' texts; on brace-free input its braces balance exactly when every vertex is reachable from a root, and then it is the roots' segments alone |
| Trees.ConvertToTree | src/main/java/util/TreeFormatter.java:46-80 | the count check after `BuildTree`: a returned tree is exactly the roots' segments followed by the unreached vertices' texts, and it returns exactly when that text's braces balance; the only failure is the exit; on brace-free input it returns exactly when every vertex is reachable from a root, and then returns the roots' segments alone |
| Trees.StrayVertexUnreached | src/main/java/util/TreeFormatter.java:59-77 | the example graph is valid and brace-free and its second vertex is not reachable from its root, so `convertToTree` exits on it |
| Trees.WalkAllUnreachedAsRoots | src/main/java/util/TreeFormatter.java:59-68 | corrected loop: every vertex is visited afterwards, the tree is only appended to, and the balance is unchanged on brace-free input |
| Trees.ConvertToTreeIntended | src/main/java/util/TreeFormatter.java:46-80 | corrected conversion: a returned tree has balanced braces and starts with the roots' segments, the only failure is the exit, and on brace-free input it always returns |

## Left out

- The Stanford CoreNLP and JWI calls of util/TextHandler are not part of this model: tokenize, parse, tagString, normalize, loadStopWords and the phrase splitter `split`. Their results are parameters. None stands for a tokenizer or splitter call that throws, and a missing clause count for a parse that gives no tree, whose `get(0)` throws.
- The Tregex clause counts of models/ContextCheck, and the parser, node count and APTED edit distance of models/TreeEditDistance, are parameters (`ted`, `size`, the clause counts). The fixed edit costs (deletion 2, insertion 2, replacement 3) are recorded as constants but act only through `ted`.
- util/IndraCall, the HTTP relatedness service, is not part of this model. Its answer for a target and a list of words is a function parameter.
- graph/DefinitionGraph, with its RDF store and SPARQL queries, is not part of this model. One round of the exploration inside `findPaths` (models/GraphNavigation.java lines 337-659) is an oracle. It returns the steps appended, whether the target was met and the paths to push, or the exception the round raises, such as the `get(0)` on an empty ranking at lines 496 and 577. The stack, the 200/100 limits, de-duplication, cleaning and the dead-end filter around it are modelled.
- `Math.log` in util/IDFCalc is the parameter `ln`.
- Float and double rounding, overflow to infinity and `Float.toString` are not modelled; the arithmetic is exact on reals. `Math.round` is floor(x + 1/2), clamped to the int range. `writeThreshold` takes the threshold's text as a parameter.
- Case mapping (`toLowerCase`, `toUpperCase`, `equalsIgnoreCase`) covers ASCII letters only.
- A "lemma;POS" token and a "node#POS;role" path step are modelled by their fields. This is exact only while no field contains ';' or '#', a POS is never empty and has no '_', and a role is never empty.
- Entailment.WriteThreshold: the new value is assumed to hold no '$' or '\' (which `replaceFirst` would interpret), and only '\n', '\r', U+0085, U+2028 and U+2029 are treated as line terminators.
- Iteration order of `HashMap` and `HashSet` is not modelled. `filterSupertypes` takes its key order as a parameter. `convertToTree` takes the vertices no root reached in any order, and its contract names that order as a ghost output. The candidate list of `train` is proved to be independent of that order.
- File and console I/O are not modelled: resources and input files are lists of lines, the result file is the string last written, and `System.out` printing is left out. Exception: the answer `processPair` prints is modelled, as its return value.
- The aliasing in models/ContextCheck.java lines 34-36 is not reproduced. `getSynonyms` returns the table's own list, and `areSynonyms` appends the verb synonyms to it, so that list grows with every call. Here lookups return values and the table never changes after loading.
- The static singletons (`th`, `dg`, `synTable` and the word tables) are passed as parameters.
- Entailment.ProcessPair: the router's choice, the context check and the two models' answers are parameters, each an error where its Java call throws. The tree-edit-distance answer includes the constructor's reading of the threshold (`Ted.ReadThreshold`). The model tells the two models apart only through these results, and does not tie them to the text and hypothesis.
- `Entailment.processDataset` is not modelled: reading the dataset, printing a progress line, calling `processPair` per record and writing the results. Its parts are modelled separately.
- Entailment.Train starts from the pairs' distances. The loop of `train` that reads the dataset and computes each pair's tree edit distance (core/Entailment.java lines 223-237) is modelled only through `Ted.ComputeDistance`.
- The log4j and Redwood logging set-up and the src/test/java/entail/Example.java driver hold no engine logic and are not modelled.

## Findings

| source | as written | input that shows it | evidently intended | confidence | as-written member | corrected member |
|---|---|---|---|---|---|---|
| src/main/java/data/DataWriter.java:35 | the justification block is skipped only when `justification.toString()` equals "null", but a list's string form is always bracketed | a "no" decision, whose justification is "null", split into ["null"] | no "Justification:" block for the "null" marker that every "no" decision carries | high; not executed | Writer.JustificationAlwaysWritten | Writer.BlockShape |
| src/main/java/util/TreeFormatter.java:63-64 | a vertex no root reaches is appended as its lemma without an opening "{", so each such vertex takes 2 from the brace balance and the count check at lines 71-77 always exits | Trees.StrayGraph: root "see" and a vertex "it" whose only edge points back to the root | every vertex is opened with "{" like a root (and its last "}" dropped), so the tree stays balanced and the program never exits on a brace-free graph | medium; not executed | Trees.StrayVertexUnreached | Trees.ConvertToTreeIntended |

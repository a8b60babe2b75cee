# VisCGEC prediction pipeline, modelled in Dafny

VisCGEC locates visible errors in photographed Chinese handwriting. An OCR
pass reads each sentence and records one bounding box per character. A
grammatical error corrector proposes a corrected sentence. The prediction
scripts then compare every OCR sentence with its correction, score each
changed character, find the character's box on the page, and pick the
boxes to highlight. This project models that core:

- `generate_prediction_paddle.py`: the first prediction variant.
  - The edit records of one sentence pair, scored by "typicality" and
    sorted.
  - The robust character lookup: the exact position, then a window of 3,
    then a window of 5.
  - Score-ranked non-maximum suppression at IoU 0.7, keeping one box per
    page.
- `generate_prediction.py`: the second variant.
  - Scoring with a random jitter.
  - A window-of-3 lookup.
  - The enhanced selection: a quality filter, then greedy picks by a
    combined score of error score, position diversity and type balance.
  - The multi-strategy selection: round robin over edit kinds with
    per-kind quotas, then a score-ordered fill, then a sort and a cut.
- `merge_predictions.py`: the merge of the two variants' outputs.
- `PaddleOCR_changedfiles/predict_system_enhanced.py`: the layout post-processing.
  - Tables are relabelled as figures.
  - The region dispatch.
  - Style tokens are stripped from recognised text.
  - Text lines are filtered by rectangle intersection.

Modules, one concept each:

| module | contents |
|---|---|
| `Options` | option type |
| `Text` | substring test, `str.replace(token, "")`, `' '.join` |
| `FileNames` | `get_file_id` |
| `Geometry` | boxes and IoU |
| `Sorting` | Python's stable `sort(reverse=True)`, as insertion into a sorted list |
| `Alignment` | difflib opcodes and the unscored edit records they yield |
| `Lexicon` | the confusion tables and word lists |
| `Documents` | correction items, sentences, character boxes, candidates |
| `PaddlePrediction` and `Prediction` | the two variants |
| `MultiStrategy` | the second variant's alternative selector |
| `MergePredictions` | the merge |
| `StructureSystem` | the layout post-processing |

Each imperative routine of the source is a `method` with its loops. Each
method is proved equal to a specification function, and the properties are
proved about that function. Where the source mutates a list in place, the
model uses a `seq` variable. The paddle entries of the merge and the
layout regions are mutated in place as an `array`.

Behaviour of the code that the model reproduces and a reader might not expect:

- The paddle `find_modified_chars` sorts its records by `x[1]`, the
  original character, in descending order. It does not sort by score.
  `PaddlePrediction.ModifiedChars` does the same: `CharKey` is the code
  point.
- NMS keeps a box whose IoU with every kept box is at most 0.7, not
  strictly below it. It has no count limit. `process_corrected_file` then
  keeps only the first box.
- In `enhanced_bbox_selection`, the fallback `all[:max_count]` is
  reachable only when no box reaches the threshold.
- `multi_strategy_bbox_selection` checks the count limit after adding a
  box. With `max_count == 0`, phase one still adds a box; the final slice
  removes it.
- The style-token list holds `"<strike>"` twice, and the second pass is
  not a no-op. `"<str<strike>ike>"` becomes `"<strike>"` after one pass
  and `""` after two. `StructureSystem.DuplicateStrikeMatters` proves
  this.
- The omission punctuation literal `'，。！？；：""''（）【】'` is an
  implicit concatenation of two Python literals, `'，。！？；：""'` and
  `'（）【】'`. Its 12 characters hold the ASCII double quote twice and no
  single quote. `Lexicon.OmissionPunctuation`
  spells it out.

## Model

| member | source | states |
|---|---|---|
| FileNames.FileId | generate_prediction_paddle.py:7-17 | the id is a prefix of the base name that contains no `/`; it is the whole base name when that has no dot, and otherwise it stops exactly at the base name's last dot |
| FileNames.BaseNameAfterSlash | generate_prediction_paddle.py:14 | `os.path.basename` of `dir/name` is `name` for any directory |
| FileNames.FileIdOfStem | generate_prediction_paddle.py:7-17 | a name with one extension, under any directory, gives its stem |
| FileNames.FileIdOfPlainId | generate_prediction_paddle.py:7-17 | a bare id without `/` or `.` is its own file id |
| FileNames.FileIdFormats | generate_prediction_paddle.py:8-12 | both documented formats, `.../2101.jpg` and `2101`, give the id `2101` |
| FileNames.FileIdKeepsInnerDots | generate_prediction.py:10 | the regex removes only the last extension: `a.tar.gz` gives `a.tar` |
| Geometry.Iou | generate_prediction_paddle.py:284-305 | IoU is never negative |
| Geometry.IouSymmetric | generate_prediction.py:200-215 | IoU does not depend on the order of its two boxes |
| Geometry.IouAtMostOne | generate_prediction_paddle.py:295-305 | for boxes whose starts do not exceed their ends, IoU is at most 1 |
| Geometry.IouOfSeparated | generate_prediction_paddle.py:292-293 | boxes that are apart on either axis, or only touch, have IoU 0 |
| Geometry.IouSelf | generate_prediction_paddle.py:295-305 | a box of positive area has IoU 1 with itself |
| Sorting.SortDesc | generate_prediction.py:309 | the sort returns a permutation of its input in non-increasing key order |
| Sorting.Insert | generate_prediction.py:309 | inserting one element adds exactly that element |
| Sorting.InsertSorted | generate_prediction.py:309 | inserting into a sorted list keeps it sorted |
| Sorting.SortOfSorted | generate_prediction_paddle.py:313 | a sorted list is its own sort |
| Sorting.SortStable | generate_prediction.py:342 | the elements sharing a key keep their relative order, so the sort is stable |
| Sorting.SortIdempotent | generate_prediction_paddle.py:266-313 | sorting an already sorted list again changes nothing |
| Sorting.SortHead | generate_prediction_paddle.py:266 | the sorted list starts with the first element of greatest key |
| Text.RemoveAll | PaddleOCR_changedfiles/predict_system_enhanced.py:236 | removing a token never lengthens the string and leaves a string without the token unchanged |
| Text.ContainsSingle | PaddleOCR_changedfiles/predict_system_enhanced.py:235 | a one-character substring test is a membership test |
| Text.Join | generate_prediction.py:198 | the length of `sep.join(parts)` is the parts' total length plus one separator between neighbours; a single part is returned unchanged |
| Alignment.InsertAnchor | generate_prediction_paddle.py:60-66 | the insert's context character is the one before the insert point, else the one after it; there is none exactly when the source is empty |
| Alignment.OpcodeEdits | generate_prediction_paddle.py:28-70 | every edit of an opcode names a position inside the source and the source character at that position |
| Alignment.Align | generate_prediction_paddle.py:28-70 | the edits of all opcodes, in opcode order, each naming a source position and its character |
| Alignment.AlignOrdered | generate_prediction.py:17-47 | over well-formed opcodes, the edits come in position order, strictly increasing between replace and delete edits |
| Alignment.AlignEmptySource | generate_prediction_paddle.py:53-67 | an empty source yields no edits at all, because an insert has no context character |
| Lexicon.OnlySharedKey | generate_prediction_paddle.py:81-107 | `已` is the only character in both the look-alike table and another confusion table |
| Lexicon.SharedHomophone | generate_prediction_paddle.py:81-99 | `已` is the only character with both a look-alike and a homophone entry |
| Lexicon.YiPartners | generate_prediction_paddle.py:81-99 | `已` pairs with `己` only as a look-alike and with `以` only as a homophone, and is neither traditional nor punctuation |
| Lexicon.DoublePartner | generate_prediction_paddle.py:89-107 | a character with a look-alike partner and another partner is `已`: look-alike `己`, homophone `以` |
| Lexicon.VisualAndPhoneticExclusive | generate_prediction_paddle.py:89-99 | no replacement earns both the look-alike and the homophone bonus |
| Lexicon.NoSimplifiedLookAlike | generate_prediction.py:76-98 | no traditional form also has a look-alike partner |
| Lexicon.CommonErrorsAreCjk | generate_prediction_paddle.py:123 | every common wrong glyph is an ideograph |
| Lexicon.PunctuationNotCommonError | generate_prediction_paddle.py:110-125 | no punctuation mark is a common wrong glyph |
| Lexicon.ParticlesAreIdeographs | generate_prediction.py:58 | every common omitted particle is one ideograph |
| Lexicon.OmissionPunctuationNotCjk | generate_prediction.py:63 | no character of the omission punctuation string is an ideograph |
| Lexicon.PunctuationNotAlpha | generate_prediction_paddle.py:114-116 | a punctuation mark is neither alphabetic nor a digit |
| Documents.GetCharBbox | generate_prediction_paddle.py:166-174 | the box takes x and y starts from `bbox[0]` and `bbox[1]` and ends from `bbox[2]` and `bbox[3]`; it is proper exactly when the raw box is |
| Documents.SentenceChars | generate_prediction_paddle.py:241-245 | the lookup finds the characters of the first sentence with the id, and finds none exactly when no sentence has it |
| Documents.Predicts | generate_prediction_paddle.py:230-233 | the collected sentences are the items' predicted sentences, in item order |
| Documents.FindSentence | generate_prediction.py:157-161 | the lookup loop returns exactly the characters of the first sentence with the id |
| Documents.FirstMatch | generate_prediction_paddle.py:210-213 | the scan finds the leftmost match in its range, and none exactly when nothing in the range matches |
| PaddlePrediction.ErrorTypicality | generate_prediction_paddle.py:76-127 | a look-alike correction scores at least 100; no replacement scores more than 315 |
| PaddlePrediction.OmissionTypicality | generate_prediction_paddle.py:129-164 | every insert scores at least 10, a single character at least 40, and a common particle at least 125 |
| PaddlePrediction.VisualOutranksOtherPartners | generate_prediction_paddle.py:89-107 | for a character with two partners, the look-alike correction scores strictly higher than the other partner |
| PaddlePrediction.DeletedPunctuationScore | generate_prediction_paddle.py:110-125 | a deleted punctuation mark scores 20, plus 10 in the middle of the sentence |
| PaddlePrediction.CjkReplacementBonus | generate_prediction_paddle.py:113-116 | an ideograph replaced by an ideograph gets the alphabetic bonus of 30, because `isalpha` holds for ideographs |
| PaddlePrediction.BracketPairIsPunctuation | generate_prediction_paddle.py:148-149 | `（）` gets the punctuation bonus, because the test is a substring test |
| PaddlePrediction.ModifiedCharsFacts | generate_prediction_paddle.py:19-74 | the records are a permutation of the scored edits in descending character order, stable among equal characters; each names its source character; an empty source yields none |
| PaddlePrediction.FindModifiedChars | generate_prediction_paddle.py:19-74 | the opcode loop with its in-place sort returns exactly the specified records |
| PaddlePrediction.ReplaceRecords | generate_prediction_paddle.py:29-43 | the replace loop yields the scored edit records of the opcode, in order |
| PaddlePrediction.DeleteRecords | generate_prediction_paddle.py:45-51 | the delete loop yields the scored edit records of the opcode, in order |
| PaddlePrediction.InsertRecords | generate_prediction_paddle.py:53-70 | the insert branch yields the one record anchored at the context character, or none |
| PaddlePrediction.OpcodeRecords | generate_prediction_paddle.py:28-70 | the dispatch on the opcode tag yields the scored edit records of the opcode |
| PaddlePrediction.RobustIndex | generate_prediction_paddle.py:176-216 | the found entry matches and lies within 5 of the position; a miss happens exactly when the position is past the end or nothing within 5 matches; an entry other than the position is found only when the position itself does not match; the window of 3 is searched first and its leftmost match wins; only when it has no match is the leftmost match within 5 taken |
| PaddlePrediction.RobustPrefersLeftmost | generate_prediction_paddle.py:199-207 | within the window of 3 the leftmost match wins, even when a match nearer the position exists |
| PaddlePrediction.FindCharBboxRobust | generate_prediction_paddle.py:176-216 | the three scans return the entry at exactly the specified index |
| PaddlePrediction.ScanWindow | generate_prediction_paddle.py:197-207 | the offset loop from -3 to 3, skipping 0, finds the leftmost match in the window |
| PaddlePrediction.ScanWide | generate_prediction_paddle.py:209-213 | the scan of all characters finds the leftmost match within 5 of the position |
| PaddlePrediction.Nms | generate_prediction_paddle.py:315-331 | suppression keeps at most its input and only boxes from its input, and always keeps the first box |
| PaddlePrediction.NmsSubsequence | generate_prediction_paddle.py:316-331 | the kept boxes are the input boxes at strictly increasing positions |
| PaddlePrediction.NmsDropped | generate_prediction_paddle.py:318-324 | every dropped box overlaps an earlier kept box by more than the threshold |
| PaddlePrediction.NmsPairwise | generate_prediction_paddle.py:318-324 | no two kept boxes overlap by more than the threshold, in either order |
| PaddlePrediction.NmsSorted | generate_prediction_paddle.py:313-333 | suppressing a score-sorted list leaves it score-sorted |
| PaddlePrediction.ShouldKeep | generate_prediction_paddle.py:317-328 | when the kept boxes score no lower than the current one, it is kept exactly when no kept box overlaps it above the threshold |
| PaddlePrediction.ApplyBboxNms | generate_prediction_paddle.py:307-333 | the method returns the suppression of the score-sorted input |
| PaddlePrediction.Located | generate_prediction_paddle.py:249-261 | at most one box per record; each box is the box of a character equal to the record's original character, tagged with the sentence id; each box comes from some record whose score, characters and kind it carries, at the entry `RobustIndex` finds for that record (so within 5 of its position); every record `RobustIndex` resolves yields its box |
| PaddlePrediction.LocateRecords | generate_prediction_paddle.py:249-261 | the record loop returns exactly the specified boxes |
| PaddlePrediction.ItemBoxes | generate_prediction_paddle.py:239-261 | the sentence lookup and the record loop of one item return exactly its specified boxes |
| PaddlePrediction.CollectItem | generate_prediction_paddle.py:231-261 | one item's pass returns exactly its specified boxes |
| PaddlePrediction.CollectCandidates | generate_prediction_paddle.py:229-263 | the sentence loop returns the corrected sentences in order and exactly the specified candidates |
| PaddlePrediction.TopAfterSuppression | generate_prediction_paddle.py:266-273 | after both sorts and suppression, the first box is the first highest-scoring candidate |
| PaddlePrediction.FirstBox | generate_prediction_paddle.py:272-280 | `filtered_bboxes[:1]` keeps the first box, or none for an empty list |
| PaddlePrediction.ProcessCorrectedFile | generate_prediction_paddle.py:229-282 | the text is the corrected sentences joined by spaces; there is at most one box, none exactly when no candidate was found, and otherwise it is the box of the first highest-scoring candidate |
| Prediction.InsertScore | generate_prediction.py:55-72 | an insert scores between 65 and 125 |
| Prediction.ReplaceBonus | generate_prediction.py:74-112 | the bonuses add up to at most 145, and a look-alike correction gets at least 40 |
| Prediction.ErrorScore | generate_prediction.py:51-118 | with a draw in [-2, 2], an insert scores 65 to 125 and any other edit 48 to 197 |
| Prediction.InsertScoreIgnoresDraw | generate_prediction.py:55-72 | an insert's score depends only on the inserted text, because it returns before the draw |
| Prediction.ParticleInsertScore | generate_prediction.py:58-70 | a common particle scores exactly 100 |
| Prediction.VisualOutranksUnderJitter | generate_prediction.py:76-116 | whatever the two draws, a look-alike correction outscores the other partner of the same character |
| Prediction.DeletedPunctuationBonus | generate_prediction.py:101-116 | a deleted punctuation mark scores at least 63 whatever the draw |
| Prediction.ModifiedCharsFacts | generate_prediction.py:12-49 | the records come in position order; each names its source character; an insert scores 65 to 125 and shows `[+...]`; any other record scores at least 48; an empty source yields none |
| Prediction.FindModifiedChars | generate_prediction.py:12-49 | the opcode loop returns exactly the specified records, without sorting |
| Prediction.ReplaceRecords | generate_prediction.py:18-31 | the replace loop yields the scored edit records of the opcode, in order |
| Prediction.DeleteRecords | generate_prediction.py:33-38 | the delete loop yields the scored edit records of the opcode, in order |
| Prediction.InsertRecords | generate_prediction.py:40-47 | the insert branch yields the one record anchored at the context character, or none |
| Prediction.OpcodeRecords | generate_prediction.py:17-47 | the dispatch on the opcode tag yields the scored edit records of the opcode |
| Prediction.NearIndex | generate_prediction.py:128-143 | the found entry matches and lies within 3; a miss happens exactly when the position is past the end or nothing within 3 matches; otherwise the found entry is the leftmost match within 3 |
| Prediction.NearAgreesWithRobust | generate_prediction.py:128-143 | whatever the window-of-3 lookup finds, the robust lookup finds too; when only the robust lookup finds a match, it lies 4 or 5 positions away |
| Prediction.FindCharBbox | generate_prediction.py:128-143 | the scan returns the entry at exactly the specified index |
| Prediction.MinDistance | generate_prediction.py:226-232 | the running minimum is a lower bound on every distance and equals one of them |
| Prediction.DiversityRange | generate_prediction.py:217-235 | with a non-negative root, the diversity score lies in [0, 1] |
| Prediction.Diversity | generate_prediction.py:217-235 | the diversity score never exceeds 1 |
| Prediction.DiversityFull | generate_prediction.py:219-235 | the score is 1 exactly when every selected box is at least 100 pixels away |
| Prediction.DiversityShrinks | generate_prediction.py:226-235 | selecting one more box never raises a candidate's diversity |
| Prediction.PositionDiversityScore | generate_prediction.py:217-235 | the loop returns exactly the specified diversity |
| Prediction.TypeBalanceDecreasing | generate_prediction.py:273-275 | more boxes of the same kind give a strictly lower balance score |
| Prediction.TypeBalance | generate_prediction.py:275 | the balance score lies in (0, 1] |
| Prediction.CombinedScore | generate_prediction.py:267-280 | the combined score of a candidate is the specified weighted sum |
| Prediction.CombinedWithNone | generate_prediction.py:219-220 | before anything is selected, the combined score is half the error score plus 50 |
| Prediction.CombinedAboveFloor | generate_prediction.py:263-284 | with a non-negative error score, the combined score beats the initial best of -1 |
| Prediction.FirstBest | generate_prediction.py:262-284 | the chosen index holds the greatest score, which exceeds -1, and every earlier score is strictly lower; nothing is chosen exactly when every score is at most -1 |
| Prediction.BestCandidate | generate_prediction.py:262-284 | the inner scan returns exactly the specified index |
| Prediction.RemoveBest | generate_prediction.py:286-288 | `candidates.remove(best)` removes the best candidate's own position, not an earlier equal box |
| Prediction.RemoveFirst | generate_prediction.py:288 | `list.remove` takes out exactly one copy of the element |
| Prediction.GreedyPicks | generate_prediction.py:258-290 | the greedy loop extends the selection, picks at most `max_count`, and draws the new picks from the candidates without repeats |
| Prediction.GreedyComplete | generate_prediction.py:261-290 | with non-negative scores, the loop stops only at `max_count` or when the candidates run out |
| Prediction.QualityFiltered | generate_prediction.py:242-255 | when some box reaches `max(40, 0.6·mean)` the pool holds exactly the boxes at or above it; when none does it is the first `max_count` boxes; either way each box occurs in the pool no more often than in the input |
| Prediction.QualityFilter | generate_prediction.py:242-255 | the filter method returns exactly the specified pool |
| Prediction.AboveThreshold | generate_prediction.py:249-250 | the list comprehension keeps exactly the boxes at or above the threshold |
| Prediction.AboveThresholdEmpty | generate_prediction.py:249-255 | the filtered list is empty exactly when no score reaches the threshold, which is when the fallback applies |
| Prediction.ThresholdAtMost | generate_prediction.py:244-246 | the dynamic threshold never exceeds a top score of at least 40 |
| Prediction.TopSurvivesQuality | generate_prediction.py:242-255 | a top box scoring at least 40 survives the quality filter |
| Prediction.TopPassesFilter | generate_prediction.py:244-251 | a top score of at least 40 passes the dynamic threshold |
| Prediction.EnhancedBounds | generate_prediction.py:237-292 | the selection has at most `max_count` boxes, all from the input without repeats, and is empty for empty input |
| Prediction.EnhancedStartsWithTop | generate_prediction.py:237-292 | with non-negative scores and a top score of at least 40, the first pick has the top score |
| Prediction.GreedyFirstPick | generate_prediction.py:261-288 | with non-negative scores the first greedy pick is the first top-scoring candidate |
| Prediction.EnhancedCount | generate_prediction.py:237-292 | with non-negative scores, the selection has exactly `min(max_count, pool size)` boxes |
| Prediction.EnhancedBboxSelection | generate_prediction.py:237-292 | the selection method returns exactly the specified selection |
| Prediction.Located | generate_prediction.py:176-187 | at most one box per record; each box is the box of a matching character within 3 of its `char_pos`, tagged with the sentence id; each box comes from some record whose score, characters and kind it carries, with `char_pos` the record's position and the box that of the entry `NearIndex` finds for it; every record `NearIndex` resolves yields its box |
| Prediction.LocatedScores | generate_prediction.py:176-187 | the boxes carry their records' scores, so a lower bound on the records bounds the boxes |
| Prediction.CollectCandidates | generate_prediction.py:156-187 | the sentence loop returns the corrected sentences in order and exactly the specified candidates |
| Prediction.CollectedScores | generate_prediction.py:156-187 | every collected box scores at least 48 |
| Prediction.ItemScores | generate_prediction.py:157-187 | every box of one item scores at least 48 |
| Prediction.LocateRecords | generate_prediction.py:176-187 | the record loop returns exactly the specified boxes |
| Prediction.CollectItem | generate_prediction.py:157-187 | one item's pass returns exactly its specified boxes |
| Prediction.ProcessCorrectedFile | generate_prediction.py:156-198 | the text is the corrected sentences joined by spaces, and the boxes are those of the enhanced selection, at most 16 |
| Prediction.ProcessedSelection | generate_prediction.py:189-198 | when any box was collected, the page gets `min(16, pool size)` boxes and the first has the top score |
| MultiStrategy.Kinds | generate_prediction.py:300-305 | the group keys are the distinct kinds present, without repeats |
| MultiStrategy.Group | generate_prediction.py:300-309 | a group holds exactly the input boxes of its kind, score-sorted |
| MultiStrategy.OfKind | generate_prediction.py:301-305 | the boxes gathered for a kind are exactly the input boxes of that kind |
| MultiStrategy.MaxPerType | generate_prediction.py:314 | the quota is at least 1, the quotas of all groups fit within `max_count` when it is at least the number of groups, and without groups it is `max_count` |
| MultiStrategy.CollectGroups | generate_prediction.py:300-305 | the grouping loop yields the kinds in first-seen order and each kind's boxes in input order |
| MultiStrategy.BuildGroups | generate_prediction.py:300-309 | grouping then sorting yields the specified sorted groups |
| MultiStrategy.NoOverlap | generate_prediction.py:323-327 | the overlap scan accepts a box exactly when no selected box overlaps it above the threshold |
| MultiStrategy.TakeFromGroup | generate_prediction.py:318-333 | one group's pass extends the selection by at most the quota, with boxes of that group that overlap no earlier pick above 0.8; starting from no picks with a non-empty group and a quota of at least 1, it picks at least one box |
| MultiStrategy.GroupPicks | generate_prediction.py:318-333 | a group's picks are input boxes of its kind, its count stays within the quota, and other kinds' counts do not change |
| MultiStrategy.RoundRobin | generate_prediction.py:316-337 | the round robin picks only input boxes, no two overlapping above 0.8, and no kind beyond its quota; for a non-empty input and a quota of at least 1 it picks at least one box |
| MultiStrategy.Fill | generate_prediction.py:344-355 | the fill extends the selection with remaining boxes that overlap no earlier pick above 0.6 |
| MultiStrategy.Unpicked | generate_prediction.py:341 | the remaining boxes are exactly the input boxes not yet selected |
| MultiStrategy.FillPhase | generate_prediction.py:340-355 | the fill phase extends the round robin's picks with input boxes only, spread at 0.6 |
| MultiStrategy.Cut | generate_prediction.py:358-359 | the result has exactly min(`max_count`, number of picks) boxes, is score-sorted, draws from the picks, and scores at least as high as every pick it drops |
| MultiStrategy.CutKeepsBest | generate_prediction.py:358-359 | a prefix of a sorted permutation outscores every element left out |
| MultiStrategy.MultiStrategySelection | generate_prediction.py:294-359 | the result is empty for empty input and otherwise there is at least one pick; the result has exactly min(`max_count`, number of picks) boxes, is score-sorted and outscores every dropped pick; the picks are input boxes; round-robin picks are spread at 0.8 and within the per-kind quota, and fill picks are spread at 0.6 |
| MultiStrategy.GroupCount | generate_prediction.py:314 | the dictionary has one key per distinct kind, so `len(type_groups)` is the number of kinds |
| MultiStrategy.TypeCountAppend | generate_prediction.py:274 | the count of a kind is additive over concatenation |
| MergePredictions.GotMapKeys | merge_predictions.py:14-17 | the index holds exactly the ids that some got entry carries |
| MergePredictions.GotMapLastWins | merge_predictions.py:15-17 | the entry under an id is the last got entry carrying it |
| MergePredictions.BuildGotMap | merge_predictions.py:14-17 | the index loop builds exactly the specified index |
| MergePredictions.Merged | merge_predictions.py:22-41 | an entry keeps its id, path and boxes; when the condition fails it is unchanged, otherwise both texts are the got entry's (empty when missing) |
| MergePredictions.ReplacementLengthens | merge_predictions.py:37-40 | a replacement lengthens the prediction text, by more than 20 characters unless it was empty |
| MergePredictions.MergeIdempotent | merge_predictions.py:22-41 | merging a merged entry again changes nothing |
| MergePredictions.ReplacedCount | merge_predictions.py:41 | at most one replacement per paddle entry |
| MergePredictions.ReplacedCountZero | merge_predictions.py:38-41 | the count is zero exactly when no entry meets the condition |
| MergePredictions.Merge | merge_predictions.py:19-44 | the in-place loop turns each paddle entry into its merged form and counts the replacements |
| MergePredictions.MergeFiles | merge_predictions.py:14-44 | index, then merge: each entry becomes its merged form against the index of the got entries |
| StructureSystem.IntersectionIsCommonPoint | PaddleOCR_changedfiles/predict_system_enhanced.py:269-276 | for proper rectangles, the test holds exactly when the two share a point |
| StructureSystem.IntersectionSymmetric | PaddleOCR_changedfiles/predict_system_enhanced.py:269-276 | the test does not depend on the order of its arguments |
| StructureSystem.TouchingEdgesIntersect | PaddleOCR_changedfiles/predict_system_enhanced.py:272-275 | rectangles that only share an edge count as intersecting |
| StructureSystem.Filtered | PaddleOCR_changedfiles/predict_system_enhanced.py:260-267 | the filter keeps exactly the lines whose region rectangle, from corners 0 and 2, intersects the bbox |
| StructureSystem.FilterTextRes | PaddleOCR_changedfiles/predict_system_enhanced.py:260-267 | the loop returns exactly the specified lines, in order |
| StructureSystem.Relabeled | PaddleOCR_changedfiles/predict_system_enhanced.py:151-153 | a table becomes a figure and nothing else changes |
| StructureSystem.Relabel | PaddleOCR_changedfiles/predict_system_enhanced.py:151-153 | the in-place loop relabels every region, and no table is left |
| StructureSystem.Dispatch | PaddleOCR_changedfiles/predict_system_enhanced.py:166-184 | the table route is taken exactly for tables, the formula route exactly for equations when a formula model exists |
| StructureSystem.TableRouteUnreachable | PaddleOCR_changedfiles/predict_system_enhanced.py:151-166 | after relabelling, the table branch of the dispatch is dead |
| StructureSystem.Stripped | PaddleOCR_changedfiles/predict_system_enhanced.py:233-236 | stripping tokens never lengthens the text |
| StructureSystem.StrippedClean | PaddleOCR_changedfiles/predict_system_enhanced.py:234-236 | text containing no token is left unchanged |
| StructureSystem.StripStyleTokens | PaddleOCR_changedfiles/predict_system_enhanced.py:215-236 | the token loop returns exactly the specified stripped text, no longer than the input |
| StructureSystem.DuplicateStrikeMatters | PaddleOCR_changedfiles/predict_system_enhanced.py:216-217 | the repeated `"<strike>"` is not redundant: one pass leaves `"<strike>"` from `"<str<strike>ike>"`, and the second removes it |

## Left out

- difflib's `SequenceMatcher`: its opcodes are an input, required only to tile both strings in order.
- File and JSON reading and writing, zip output, the `main` loops, printing and timing: I/O.
- `random.uniform(-2, 2)`: a parameter. The draws are any function of sentence index and position with values in [-2, 2].
- The square root of the diversity distance: a parameter function, required to be non-negative only by the lemmas that need it.
- IEEE floating point: scores, coordinates and IoU are exact reals. The position tests `0.2 * n < pos < 0.8 * n` and `0.1 * n < pos < 0.9 * n` are cross-multiplied integers.
- `str.isdigit` and `str.isalpha`: approximated by character ranges (ASCII, Latin-1, CJK, kana, hangul, full-width).
- Aliasing of the dictionaries shared between lists: boxes and entries are values.
- The in-place `list.sort` calls: modelled by `Sorting.SortDesc` on a sequence, not as in-place sorts.
- The structure system's calls into detection, recognition, table and formula predictors: not modelled. The region dispatch is modelled only up to the route it picks.
- `cal_ocr_word_box` and the `return_word_box` branch: a foreign call.
- The `int()` truncation of region boxes before cropping: not modelled.
- `save_structure_res`, the multiprocess `main`, `ocr_batch_processor.py` and `vis/visualize_bbox.py`: I/O and orchestration outside the core.
- `fk_homework_id` values: modelled as integers.
- PaddlePrediction.ErrorTypicality: states bounds and the look-alike bonus only; the other bonuses are stated by the lemmas beside it.
- MultiStrategy.MultiStrategySelection: states the spread of the picks and the per-kind quota, but not that the round robin stops exactly at `max_count`.
- MultiStrategy.TakeFromGroup and MultiStrategy.Fill: the contracts state what the picks satisfy (source, spread, quota) but not that every box that overlaps no earlier pick and fits the quota is picked; only the first pick of the round robin is promised.

/**
 * The merge of the two prediction files: entries of the second (the "got"
 * prediction) are indexed by `fk_homework_id`, and a paddle entry takes over
 * the got entry's texts when its own prediction text is empty or more than
 * 20 characters shorter than a non-empty got text.
 */
module MergePredictions {
  import opened Options
  import opened Geometry

  /**
   * One entry of a prediction file. A missing `fk_homework_id`,
   * `source_text` or `predict_text` key is `None`; the page path and the
   * box list stand for every other field, which the merge never touches.
   */
  datatype Entry = Entry(homeworkId: Option<int>, sourceText: Option<string>, predictText: Option<string>,
                         path: string, boxes: seq<Box>)

  /** `item.get(key, '')`. */
  function TextOr(t: Option<string>): string
  {
    match t
    case None => ""
    case Some(s) => s
  }

  /* ------------------------------------------------------------- index */

  /** `got_map`: every entry with an id, keyed by it; a later entry overwrites an earlier one. */
  function GotMap(got: seq<Entry>): map<int, Entry>
  {
    if got == [] then map[]
    else
      var m := GotMap(got[..|got| - 1]);
      var last := got[|got| - 1];
      match last.homeworkId
      case None => m
      case Some(id) => m[id := last]
  }

  /** The ids the index holds are exactly those some got entry carries. */
  lemma {:induction false} GotMapKeys(got: seq<Entry>, id: int)
    ensures id in GotMap(got) <==> exists k :: 0 <= k < |got| && got[k].homeworkId == Some(id)
  {
    if got != [] {
      var init := got[..|got| - 1];
      GotMapKeys(init, id);
      if exists k :: 0 <= k < |got| && got[k].homeworkId == Some(id) {
        var k :| 0 <= k < |got| && got[k].homeworkId == Some(id);
        if k < |got| - 1 {
          assert init[k] == got[k];
        }
      }
    }
  }

  /** The entry indexed under an id is the last got entry carrying it. */
  lemma {:induction false} GotMapLastWins(got: seq<Entry>, k: nat)
    requires k < |got| && got[k].homeworkId.Some?
    requires forall j :: k < j < |got| ==> got[j].homeworkId != got[k].homeworkId
    ensures got[k].homeworkId.value in GotMap(got)
    ensures GotMap(got)[got[k].homeworkId.value] == got[k]
  {
    if k < |got| - 1 {
      var init := got[..|got| - 1];
      assert init[k] == got[k];
      GotMapLastWins(init, k);
    }
  }

  /** The index-building loop of the merge. */
  method BuildGotMap(got: seq<Entry>) returns (gotMap: map<int, Entry>)
    ensures gotMap == GotMap(got)
  {
    gotMap := map[];
    for n := 0 to |got|
      invariant gotMap == GotMap(got[..n])
    {
      var item := got[n];
      assert got[..n + 1][..n] == got[..n];
      if item.homeworkId.Some? {
        gotMap := gotMap[item.homeworkId.value := item];
      }
    }
    assert got[..|got|] == got;
  }

  /* ------------------------------------------------------------- merge rule */

  /** `got_text_len > 0 and (paddle_text_len == 0 or got_text_len - paddle_text_len > 20)`. */
  predicate ShouldReplace(paddleLen: nat, gotLen: nat)
  {
    gotLen > 0 && (paddleLen == 0 || gotLen - paddleLen > 20)
  }

  /** The replacement condition for one paddle entry: an id, a got entry under it, and the length rule. */
  predicate Replaces(item: Entry, gotMap: map<int, Entry>)
  {
    item.homeworkId.Some? && item.homeworkId.value in gotMap
    && ShouldReplace(|TextOr(item.predictText)|, |TextOr(gotMap[item.homeworkId.value].predictText)|)
  }

  /**
   * A paddle entry after the merge: when the condition holds, both texts are
   * the got entry's (or empty when it lacks them) and every other field is
   * kept; otherwise the entry is unchanged.
   */
  function Merged(item: Entry, gotMap: map<int, Entry>): (r: Entry)
    ensures r.homeworkId == item.homeworkId && r.path == item.path && r.boxes == item.boxes
    ensures !Replaces(item, gotMap) ==> r == item
    ensures Replaces(item, gotMap) ==>
              var g := gotMap[item.homeworkId.value];
              r.sourceText == Some(TextOr(g.sourceText)) && r.predictText == Some(TextOr(g.predictText))
  {
    if Replaces(item, gotMap) then
      var g := gotMap[item.homeworkId.value];
      item.(sourceText := Some(TextOr(g.sourceText)), predictText := Some(TextOr(g.predictText)))
    else item
  }

  /** A replacement always lengthens the prediction text, by more than 20 unless it was empty. */
  lemma ReplacementLengthens(item: Entry, gotMap: map<int, Entry>)
    requires Replaces(item, gotMap)
    ensures |TextOr(Merged(item, gotMap).predictText)| > |TextOr(item.predictText)|
    ensures TextOr(item.predictText) != "" ==> |TextOr(Merged(item, gotMap).predictText)| > |TextOr(item.predictText)| + 20
  {
  }

  /** Merging a merged entry again changes nothing: the texts then have equal length. */
  lemma MergeIdempotent(item: Entry, gotMap: map<int, Entry>)
    ensures Merged(Merged(item, gotMap), gotMap) == Merged(item, gotMap)
  {
    if Replaces(item, gotMap) {
      var m := Merged(item, gotMap);
      assert TextOr(m.predictText) == TextOr(gotMap[item.homeworkId.value].predictText);
      assert !Replaces(m, gotMap);
    }
  }

  /** How many entries meet the replacement condition. */
  function ReplacedCount(items: seq<Entry>, gotMap: map<int, Entry>): (r: nat)
    ensures r <= |items|
  {
    if items == [] then 0
    else ReplacedCount(items[..|items| - 1], gotMap) + (if Replaces(items[|items| - 1], gotMap) then 1 else 0)
  }

  /** The count is zero exactly when no entry meets the condition. */
  lemma {:induction false} ReplacedCountZero(items: seq<Entry>, gotMap: map<int, Entry>)
    ensures ReplacedCount(items, gotMap) == 0 <==> forall k :: 0 <= k < |items| ==> !Replaces(items[k], gotMap)
  {
    if items != [] {
      var init := items[..|items| - 1];
      ReplacedCountZero(init, gotMap);
      assert forall k :: 0 <= k < |init| ==> init[k] == items[k];
    }
  }

  /** Counting one more entry adds one exactly when it meets the condition. */
  lemma ReplacedCountSnoc(items: seq<Entry>, n: nat, gotMap: map<int, Entry>)
    requires n < |items|
    ensures ReplacedCount(items[..n + 1], gotMap) ==
      ReplacedCount(items[..n], gotMap) + if Replaces(items[n], gotMap) then 1 else 0
  {
    assert items[..n + 1][..n] == items[..n];
  }

  /* ------------------------------------------------------------- merge loop */

  /**
   * The merge loop over the paddle entries, updating them in place: each
   * entry becomes its merged form, and the count is the number of
   * replacements made.
   */
  method Merge(paddle: array<Entry>, gotMap: map<int, Entry>) returns (replacedCount: nat)
    modifies paddle
    ensures forall k :: 0 <= k < paddle.Length ==> paddle[k] == Merged(old(paddle[k]), gotMap)
    ensures replacedCount == ReplacedCount(old(paddle[..]), gotMap)
  {
    ghost var original := paddle[..];
    replacedCount := 0;
    for n := 0 to paddle.Length
      invariant forall k :: 0 <= k < n ==> paddle[k] == Merged(original[k], gotMap)
      invariant forall k :: n <= k < paddle.Length ==> paddle[k] == original[k]
      invariant replacedCount == ReplacedCount(original[..n], gotMap)
    {
      ReplacedCountSnoc(original, n, gotMap);
      var item := paddle[n];
      if item.homeworkId.None? {
        continue;
      }
      var fkId := item.homeworkId.value;
      if fkId in gotMap {
        var gotItem := gotMap[fkId];
        var paddleTextLen := |TextOr(item.predictText)|;
        var gotTextLen := |TextOr(gotItem.predictText)|;
        if gotTextLen > 0 && (paddleTextLen == 0 || gotTextLen - paddleTextLen > 20) {
          paddle[n] := item.(sourceText := Some(TextOr(gotItem.sourceText)), predictText := Some(TextOr(gotItem.predictText)));
          replacedCount := replacedCount + 1;
        }
      }
    }
    assert original[..paddle.Length] == original;
  }

  /** The merge of `main`: build the index over the got entries, then merge the paddle entries in place. */
  method MergeFiles(got: seq<Entry>, paddle: array<Entry>) returns (replacedCount: nat)
    modifies paddle
    ensures forall k :: 0 <= k < paddle.Length ==> paddle[k] == Merged(old(paddle[k]), GotMap(got))
    ensures replacedCount == ReplacedCount(old(paddle[..]), GotMap(got))
  {
    var gotMap := BuildGotMap(got);
    replacedCount := Merge(paddle, gotMap);
  }
}

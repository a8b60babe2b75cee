/**
 * The in-memory shapes of the two JSON inputs of a page: the corrected
 * sentences (`corrected_text_list`) and the per-sentence character boxes
 * (`sentences` of the box file), plus the scored box records that both
 * prediction variants collect.
 */
module Documents {
  import opened Options
  import opened Geometry
  import opened Alignment

  /** A box list `[x_min, y_min, x_max, y_max]` as stored in the box file. */
  datatype RawBox = RawBox(xMin: real, yMin: real, xMax: real, yMax: real)

  /** One entry of a sentence's `chars`: the character text and its box. */
  datatype CharInfo = CharInfo(ch: string, bbox: RawBox)

  /** One entry of the box file's `sentences`. */
  datatype Sentence = Sentence(id: int, chars: seq<CharInfo>)

  /**
   * One entry of `corrected_text_list`: the OCR sentence, the corrected
   * sentence, the optional `sentence_id`, and the difflib opcodes between
   * the two sentences.
   */
  datatype CorrectionItem = CorrectionItem(source: string, predict: string, sentenceId: Option<int>, ops: seq<Opcode>)

  /** Every item carries the opcodes difflib gives for its two sentences. */
  ghost predicate ItemsWellFormed(items: seq<CorrectionItem>)
  {
    forall k :: 0 <= k < |items| ==> WellFormed(items[k].ops, items[k].source, items[k].predict)
  }

  /**
   * A collected box record: the display box, the error score, the source
   * character, the correction, the edit kind, the sentence id and (in the
   * variant that records it) the source position.
   */
  datatype Candidate = Candidate(box: Box, score: real, original: char, corrected: string,
                                 kind: EditKind, sentenceId: int, charPos: Option<nat>)

  /** `x.get('error_score', 0)`: every collected record has a score. */
  function ScoreKey(c: Candidate): real
  {
    c.score
  }

  /** `get_char_bbox`: the display box reads the stored list as x_min, y_min, x_max, y_max. */
  function GetCharBbox(info: CharInfo): (b: Box)
    ensures b.startX == info.bbox.xMin && b.startY == info.bbox.yMin
    ensures b.endX == info.bbox.xMax && b.endY == info.bbox.yMax
    ensures Proper(b) <==> info.bbox.xMin <= info.bbox.xMax && info.bbox.yMin <= info.bbox.yMax
  {
    Box(info.bbox.xMin, info.bbox.xMax, info.bbox.yMin, info.bbox.yMax)
  }

  /** The characters of the first sentence whose id is `id`, if any. */
  function SentenceChars(sentences: seq<Sentence>, id: int): (r: Option<seq<CharInfo>>)
    ensures r.None? <==> forall k :: 0 <= k < |sentences| ==> sentences[k].id != id
    ensures r.Some? ==> exists k :: 0 <= k < |sentences| && sentences[k].id == id && r.value == sentences[k].chars
                                     && forall m :: 0 <= m < k ==> sentences[m].id != id
  {
    if sentences == [] then None
    else if sentences[0].id == id then Some(sentences[0].chars)
    else
      var r := SentenceChars(sentences[1..], id);
      assert r.Some? ==> exists k :: 0 < k < |sentences| && sentences[k].id == id && r.value == sentences[k].chars
                                    && forall m :: 0 <= m < k ==> sentences[m].id != id by {
        if r.Some? {
          var k :| 0 <= k < |sentences| - 1 && sentences[1..][k].id == id && r.value == sentences[1..][k].chars
                   && forall m :: 0 <= m < k ==> sentences[1..][m].id != id;
          assert sentences[k + 1].id == id;
          assert forall m :: 1 <= m < k + 1 ==> sentences[m].id != id by {
            forall m | 1 <= m < k + 1 ensures sentences[m].id != id {
              assert sentences[m] == sentences[1..][m - 1];
            }
          }
        }
      }
      r
  }

  /** The sentence lookup loop: scan the box file's sentences and stop at the first id match. */
  method FindSentence(sentences: seq<Sentence>, id: int) returns (r: Option<seq<CharInfo>>)
    ensures r == SentenceChars(sentences, id)
  {
    r := None;
    var k := 0;
    while k < |sentences|
      invariant 0 <= k <= |sentences|
      invariant forall m :: 0 <= m < k ==> sentences[m].id != id
    {
      if sentences[k].id == id {
        r := Some(sentences[k].chars);
        return;
      }
      k := k + 1;
    }
  }

  /** The first index in [lo, hi) whose entry's text is t, if any. */
  function FirstMatch(chars: seq<CharInfo>, t: string, lo: nat, hi: nat): (r: Option<nat>)
    requires hi <= |chars|
    ensures r.Some? ==> lo <= r.value < hi && chars[r.value].ch == t
    ensures r.Some? ==> forall i :: lo <= i < r.value ==> chars[i].ch != t
    ensures r.None? <==> forall i :: lo <= i < hi ==> chars[i].ch != t
    decreases hi - lo
  {
    if lo >= hi then None
    else if chars[lo].ch == t then Some(lo)
    else FirstMatch(chars, t, lo + 1, hi)
  }

  /** The lower end of the window of half-width d around pos, clipped at 0. */
  function WindowLo(pos: nat, d: nat): nat
  {
    if pos >= d then pos - d else 0
  }

  /** One past the upper end of the window of half-width d around pos, clipped at n. */
  function WindowHi(pos: nat, d: nat, n: nat): nat
  {
    if pos + d + 1 <= n then pos + d + 1 else n
  }

  /** The corrected sentences of the items, in order. */
  function Predicts(items: seq<CorrectionItem>): (r: seq<string>)
    ensures |r| == |items| && forall k :: 0 <= k < |items| ==> r[k] == items[k].predict
  {
    seq(|items|, k requires 0 <= k < |items| => items[k].predict)
  }

  /** Extending the items extends their corrected sentences by the new one. */
  lemma PredictsSnoc(items: seq<CorrectionItem>, n: nat)
    requires n < |items|
    ensures Predicts(items[..n + 1]) == Predicts(items[..n]) + [items[n].predict]
  {
    assert Predicts(items[..n + 1])[..n] == Predicts(items[..n]);
  }

  /** Well-formed opcodes stay within the item's strings. */
  lemma ItemsInRange(items: seq<CorrectionItem>)
    requires ItemsWellFormed(items)
    ensures forall k :: 0 <= k < |items| ==> AllInRange(items[k].ops, items[k].source, items[k].predict)
  {
    forall k | 0 <= k < |items| ensures AllInRange(items[k].ops, items[k].source, items[k].predict) {
      TilesInRange(items[k].ops, items[k].source, items[k].predict, |items[k].source|, |items[k].predict|);
    }
  }
}

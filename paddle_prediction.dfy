/**
 * The deterministic prediction variant: edit records scored by integer
 * heuristics, each mapped back to a character box with a bounded fallback
 * search, then score-ranked overlap suppression keeping the single best box.
 */
module PaddlePrediction {
  import opened Options
  import opened Text
  import opened Lexicon
  import opened Geometry
  import opened Sorting
  import opened Alignment
  import opened Documents

  /**
   * `calculate_error_typicality`: bonuses for a visual look-alike (100), a
   * homophone (80), a traditional form (60), punctuation on both sides (20,
   * where `'' in s` holds, so a deleted mark qualifies), digits or letters on
   * both sides (30, and CJK ideographs are letters), a central position (10)
   * and a commonly misread original (15). The original is one character, so
   * its substring tests are membership tests (`Text.ContainsSingle`).
   */
  function ErrorTypicality(original: char, corrected: string, context: string, pos: nat): (r: nat)
    ensures TablePair(SimilarPairs, [original], corrected) ==> r >= 100
    ensures r <= 315
  {
    (if TablePair(SimilarPairs, [original], corrected) then 100 else 0)
    + (if TablePair(PhoneticPairs, [original], corrected) then 80 else 0)
    + (if TablePair(TraditionalSimplified, [original], corrected) then 60 else 0)
    + (if original in Punctuation && Contains(Punctuation, corrected) then 20 else 0)
    + (if SameClass([original], corrected) then 30 else 0)
    + (if Central(pos, |context|) then 10 else 0)
    + (if original in CommonErrors then 15 else 0)
  }

  /**
   * `calculate_omission_typicality`: bonuses for a common particle (85), a
   * common adverb (70), a substring of the punctuation string (50), the
   * length (40 for one character, 20 for two, 10 otherwise), an inner
   * position (15) and a common two-character word (60).
   */
  function OmissionTypicality(inserted: string, context: string, pos: nat): (r: nat)
    ensures r >= 10
    ensures |inserted| == 1 ==> r >= 40
    ensures inserted in CommonOmissions ==> r >= 125
  {
    (if inserted in CommonOmissions then 85 else 0)
    + (if inserted in AuxiliaryWords then 70 else 0)
    + (if Contains(OmissionPunctuation, inserted) then 50 else 0)
    + (if |inserted| == 1 then 40 else if |inserted| == 2 then 20 else 10)
    + (if Inner(pos, |context|) then 15 else 0)
    + (if inserted in CommonPhrases then 60 else 0)
  }

  /** A look-alike correction outscores a homophone or traditional-form correction of the same character in the same place. */
  lemma VisualOutranksOtherPartners(original: char, visual: string, other: string, context: string, pos: nat)
    requires TablePair(SimilarPairs, [original], visual)
    requires TablePair(PhoneticPairs, [original], other) || TablePair(TraditionalSimplified, [original], other)
    ensures ErrorTypicality(original, visual, context, pos) > ErrorTypicality(original, other, context, pos)
  {
    DoublePartner(original, visual, other);
    YiPartners();
    assert SameClass("已", "己") && SameClass("已", "以");
  }

  /** Deleting a punctuation mark earns the punctuation bonus, because the empty correction is a substring of the marks. */
  lemma DeletedPunctuationScore(mark: char, context: string, pos: nat)
    requires mark in Punctuation
    ensures ErrorTypicality(mark, "", context, pos) == 20 + (if Central(pos, |context|) then 10 else 0)
  {
    ContainsEmpty(Punctuation);
    assert !SameClass([mark], "");
    assert !TablePair(SimilarPairs, [mark], "") && !TablePair(PhoneticPairs, [mark], "")
           && !TablePair(TraditionalSimplified, [mark], "");
    PunctuationNotCommonError(mark);
  }

  /** Any replacement of one CJK ideograph by another earns the letter bonus. */
  lemma CjkReplacementBonus(original: char, corrected: char, context: string, pos: nat)
    requires IsCjk(original) && IsCjk(corrected)
    ensures ErrorTypicality(original, [corrected], context, pos) >= 30
  {
    assert SameClass([original], [corrected]);
  }

  /** The punctuation test for omissions is a substring test: an inserted bracket pair counts as punctuation. */
  lemma BracketPairIsPunctuation(context: string, pos: nat)
    ensures OmissionTypicality("（）", context, pos) >= 70
  {
    ContainsWitness(OmissionPunctuation, "（）", 8);
  }

  /** The score of an edit: the omission heuristic for an insert, the error heuristic otherwise. */
  function Score(e: EditOp, source: string): nat
  {
    if e.kind == InsertEdit then OmissionTypicality(e.text, source, e.pos)
    else ErrorTypicality(e.original, e.text, source, e.pos)
  }

  /** The scored records of a list of edits, in the same order. */
  function Scored(es: seq<EditOp>, source: string): (r: seq<Modified>)
    ensures |r| == |es|
    ensures forall n :: 0 <= n < |r| ==> r[n] == Record(es[n], Score(es[n], source) as real)
  {
    seq(|es|, n requires 0 <= n < |es| => Record(es[n], Score(es[n], source) as real))
  }

  /** Sort key of `modified.sort(key=lambda x: x[1], reverse=True)`: the original character. */
  function CharKey(m: Modified): real
  {
    (m.original as int) as real
  }

  /** What `find_modified_chars` returns: the scored records, stably sorted by original character, descending. */
  function ModifiedChars(ops: seq<Opcode>, source: string, target: string): seq<Modified>
    requires AllInRange(ops, source, target)
  {
    SortDesc(Scored(Align(ops, source, target), source), CharKey)
  }

  /**
   * The records are exactly the scored edits, ordered by original character
   * (not by score); records of the same character keep their source order;
   * each is anchored at a source character; an empty source yields none.
   */
  lemma ModifiedCharsFacts(ops: seq<Opcode>, source: string, target: string, c: char)
    requires WellFormed(ops, source, target)
    ensures AllInRange(ops, source, target)
    ensures multiset(ModifiedChars(ops, source, target)) == multiset(Scored(Align(ops, source, target), source))
    ensures SortedDesc(ModifiedChars(ops, source, target), CharKey)
    ensures WithKey(ModifiedChars(ops, source, target), CharKey, (c as int) as real)
         == WithKey(Scored(Align(ops, source, target), source), CharKey, (c as int) as real)
    ensures forall m :: m in ModifiedChars(ops, source, target) ==> m.pos < |source| && m.original == source[m.pos]
    ensures source == [] ==> ModifiedChars(ops, source, target) == []
  {
    TilesInRange(ops, source, target, |source|, |target|);
    var scored := Scored(Align(ops, source, target), source);
    SortStable(scored, CharKey, (c as int) as real);
    forall m | m in ModifiedChars(ops, source, target)
      ensures m.pos < |source| && m.original == source[m.pos]
    {
      assert m in multiset(scored);
    }
    if source == [] {
      AlignEmptySource(ops, source, target, |target|);
    }
  }

  lemma {:induction false} ScoredAppend(a: seq<EditOp>, b: seq<EditOp>, source: string)
    ensures Scored(a + b, source) == Scored(a, source) + Scored(b, source)
  {
    var l := Scored(a + b, source);
    var r := Scored(a, source) + Scored(b, source);
    assert |l| == |r|;
    forall n | 0 <= n < |l| ensures l[n] == r[n] {
      if n < |a| { assert (a + b)[n] == a[n]; } else { assert (a + b)[n] == b[n - |a|]; }
    }
  }

  /** Scoring one more edit appends its record. */
  lemma ScoredSnoc(es: seq<EditOp>, k: nat, source: string)
    requires k < |es|
    ensures Scored(es[..k + 1], source) == Scored(es[..k], source) + [Record(es[k], Score(es[k], source) as real)]
  {
    assert es[..k + 1] == es[..k] + [es[k]];
    ScoredAppend(es[..k], [es[k]], source);
  }

  /** The body of the replace loop for offset k: the source character paired with the target character at the same offset, if any. */
  method ReplaceRecordAt(op: Opcode, source: string, target: string, k: nat) returns (record: Modified)
    requires InRange(op, source, target) && op.tag == Replace && k < op.i2 - op.i1
    ensures var e := OpcodeEdits(op, source, target)[k]; record == Record(e, Score(e, source) as real)
  {
    var targetLen := op.j2 - op.j1;
    var sourceIdx := op.i1 + k;
    var targetIdx := op.j1 + k;
    var originalChar := source[sourceIdx];
    var correctedChar := if k < targetLen && targetIdx < |target| then [target[targetIdx]] else [];
    var score := ErrorTypicality(originalChar, correctedChar, source, sourceIdx);
    ReplaceEditAt(op, source, target, k);
    record := Modified(sourceIdx, originalChar, correctedChar, score as real, ReplaceEdit);
  }

  /** The records of a replace opcode: one per source index of its range. */
  method ReplaceRecords(op: Opcode, source: string, target: string) returns (rs: seq<Modified>)
    requires InRange(op, source, target) && op.tag == Replace
    ensures rs == Scored(OpcodeEdits(op, source, target), source)
  {
    ghost var edits := OpcodeEdits(op, source, target);
    rs := [];
    var sourceLen := op.i2 - op.i1;
    var targetLen := op.j2 - op.j1;
    var maxLen := if sourceLen >= targetLen then sourceLen else targetLen;
    for k := 0 to maxLen
      invariant k <= sourceLen ==> rs == Scored(edits[..k], source)
      invariant sourceLen <= k ==> rs == Scored(edits, source)
    {
      if k < sourceLen && op.i1 + k < |source| {
        var record := ReplaceRecordAt(op, source, target, k);
        ScoredSnoc(edits, k, source);
        rs := rs + [record];
        if k + 1 == sourceLen {
          assert edits[..k + 1] == edits;
        }
      }
    }
  }

  /** The body of the delete loop for offset k: the source character paired with the empty correction. */
  method DeleteRecordAt(op: Opcode, source: string, target: string, k: nat) returns (record: Modified)
    requires InRange(op, source, target) && op.tag == Delete && k < op.i2 - op.i1
    ensures var e := OpcodeEdits(op, source, target)[k]; record == Record(e, Score(e, source) as real)
  {
    var p := op.i1 + k;
    var originalChar := source[p];
    var score := ErrorTypicality(originalChar, [], source, p);
    DeleteEditAt(op, source, target, k);
    ghost var e := OpcodeEdits(op, source, target)[k];
    assert e.kind == DeleteEdit && e.original == originalChar && e.text == [] && e.pos == p;
    assert Score(e, source) == score;
    record := Modified(p, originalChar, [], score as real, DeleteEdit);
  }

  /** The records of a delete opcode: one per source index of its range, with an empty correction. */
  method DeleteRecords(op: Opcode, source: string, target: string) returns (rs: seq<Modified>)
    requires InRange(op, source, target) && op.tag == Delete
    ensures rs == Scored(OpcodeEdits(op, source, target), source)
  {
    ghost var edits := OpcodeEdits(op, source, target);
    rs := [];
    for k := 0 to op.i2 - op.i1
      invariant rs == Scored(edits[..k], source)
    {
      if op.i1 + k < |source| {
        var record := DeleteRecordAt(op, source, target, k);
        ScoredSnoc(edits, k, source);
        rs := rs + [record];
      }
    }
    assert edits[..op.i2 - op.i1] == edits;
  }

  /** The record of an insert opcode, anchored at its context character when there is one. */
  method InsertRecords(op: Opcode, source: string, target: string) returns (rs: seq<Modified>)
    requires InRange(op, source, target) && op.tag == Insert
    ensures rs == Scored(OpcodeEdits(op, source, target), source)
  {
    rs := [];
    var insertedText := target[op.j1..op.j2];
    var contextPos: Option<nat> := None;
    var contextChar: string := [];
    if op.i1 > 0 {
      contextPos := Some(op.i1 - 1);
      contextChar := if op.i1 - 1 < |source| then [source[op.i1 - 1]] else [];
    } else if op.i1 < |source| {
      contextPos := Some(op.i1);
      contextChar := [source[op.i1]];
    }
    if contextPos.Some? && contextChar != [] {
      var score := OmissionTypicality(insertedText, source, contextPos.value);
      rs := [Modified(contextPos.value, contextChar[0], "[+" + insertedText + "]", score as real, InsertEdit)];
    }
  }

  /** The records of one opcode; an equal block has none. */
  method OpcodeRecords(op: Opcode, source: string, target: string) returns (rs: seq<Modified>)
    requires InRange(op, source, target)
    ensures rs == Scored(OpcodeEdits(op, source, target), source)
  {
    match op.tag {
      case Equal => rs := [];
      case Replace => rs := ReplaceRecords(op, source, target);
      case Delete => rs := DeleteRecords(op, source, target);
      case Insert => rs := InsertRecords(op, source, target);
    }
  }

  /** `find_modified_chars` over the opcodes of `source` and `target`. */
  method FindModifiedChars(source: string, target: string, ops: seq<Opcode>) returns (r: seq<Modified>)
    requires WellFormed(ops, source, target)
    ensures AllInRange(ops, source, target)
    ensures r == ModifiedChars(ops, source, target)
  {
    TilesInRange(ops, source, target, |source|, |target|);
    var modified: seq<Modified> := [];
    for n := 0 to |ops|
      invariant modified == Scored(Align(ops[..n], source, target), source)
    {
      var rs := OpcodeRecords(ops[n], source, target);
      assert ops[..n + 1][..n] == ops[..n];
      ScoredAppend(Align(ops[..n], source, target), OpcodeEdits(ops[n], source, target), source);
      modified := modified + rs;
    }
    assert ops[..|ops|] == ops;
    r := SortDesc(modified, CharKey);
  }

  /**
   * The index `find_char_bbox_robust` settles on: none when the position is
   * past the end (even if a match lies within reach); the position itself
   * when its entry matches; else the leftmost match within 3; else the
   * leftmost match within 5.
   */
  function RobustIndex(chars: seq<CharInfo>, pos: nat, target: char): (r: Option<nat>)
    ensures r.Some? ==> r.value < |chars| && chars[r.value].ch == [target]
    ensures r.Some? ==> pos <= r.value + 5 && r.value <= pos + 5
    ensures r.None? <==> pos >= |chars|
                         || forall i :: WindowLo(pos, 5) <= i < WindowHi(pos, 5, |chars|) ==> chars[i].ch != [target]
    ensures r.Some? && r.value != pos ==> chars[pos].ch != [target]
    // the window of 3 is searched first, and its leftmost match wins
    ensures r.Some? && r.value != pos
            && (exists i :: WindowLo(pos, 3) <= i < WindowHi(pos, 3, |chars|) && chars[i].ch == [target])
            ==> WindowLo(pos, 3) <= r.value < WindowHi(pos, 3, |chars|)
                && forall i :: WindowLo(pos, 3) <= i < r.value ==> chars[i].ch != [target]
    // only when it has no match is the window of 5 searched, again leftmost first
    ensures r.Some? && r.value != pos
            && (forall i :: WindowLo(pos, 3) <= i < WindowHi(pos, 3, |chars|) ==> chars[i].ch != [target])
            ==> forall i :: WindowLo(pos, 5) <= i < r.value ==> chars[i].ch != [target]
  {
    if chars == [] || pos >= |chars| then None
    else if chars[pos].ch == [target] then Some(pos)
    else
      match FirstMatch(chars, [target], WindowLo(pos, 3), WindowHi(pos, 3, |chars|))
      case Some(i) => Some(i)
      case None => FirstMatch(chars, [target], WindowLo(pos, 5), WindowHi(pos, 5, |chars|))
  }

  /** Within the window of 3 the leftmost match wins, even when another match is nearer. */
  lemma RobustPrefersLeftmost()
    ensures RobustIndex([CharInfo("已", RawBox(0.0, 0.0, 1.0, 1.0)), CharInfo("经", RawBox(1.0, 0.0, 2.0, 1.0)),
                         CharInfo("很", RawBox(2.0, 0.0, 3.0, 1.0)), CharInfo("已", RawBox(3.0, 0.0, 4.0, 1.0))], 2, '已')
            == Some(0)
  {
  }

  /** A match with no match before it in the range is the first match. */
  lemma {:induction false} FirstMatchIs(chars: seq<CharInfo>, t: string, lo: nat, hi: nat, i: nat)
    requires lo <= i < hi <= |chars| && chars[i].ch == t
    requires forall j :: lo <= j < i ==> chars[j].ch != t
    ensures FirstMatch(chars, t, lo, hi) == Some(i)
    decreases i - lo
  {
    if lo < i {
      FirstMatchIs(chars, t, lo + 1, hi, i);
    }
  }

  /** The offset scan from -3 to 3 around the position, skipping the position itself. */
  method ScanWindow(chars: seq<CharInfo>, pos: nat, target: char) returns (r: Option<nat>)
    requires pos < |chars| && chars[pos].ch != [target]
    ensures r == FirstMatch(chars, [target], WindowLo(pos, 3), WindowHi(pos, 3, |chars|))
  {
    var searchWindow := 3;
    var offset := -searchWindow;
    while offset <= searchWindow
      invariant -searchWindow <= offset <= searchWindow + 1
      invariant forall i :: WindowLo(pos, 3) <= i < WindowHi(pos, 3, |chars|) && i < pos + offset ==> chars[i].ch != [target]
    {
      if offset != 0 {
        var checkIdx := pos + offset;
        if 0 <= checkIdx < |chars| {
          if chars[checkIdx].ch == [target] {
            FirstMatchIs(chars, [target], WindowLo(pos, 3), WindowHi(pos, 3, |chars|), checkIdx);
            return Some(checkIdx);
          }
        }
      }
      offset := offset + 1;
    }
    return None;
  }

  /** The scan over the whole list that accepts the first match at most 5 positions away. */
  method ScanWide(chars: seq<CharInfo>, pos: nat, target: char) returns (r: Option<nat>)
    ensures r == FirstMatch(chars, [target], WindowLo(pos, 5), WindowHi(pos, 5, |chars|))
  {
    for idx := 0 to |chars|
      invariant forall i :: WindowLo(pos, 5) <= i < WindowHi(pos, 5, |chars|) && i < idx ==> chars[i].ch != [target]
    {
      if chars[idx].ch == [target] && -5 <= idx - pos <= 5 {
        FirstMatchIs(chars, [target], WindowLo(pos, 5), WindowHi(pos, 5, |chars|), idx);
        return Some(idx);
      }
    }
    return None;
  }

  /** `find_char_bbox_robust`: direct hit, then the window scan, then the bounded scan over the whole list. */
  method FindCharBboxRobust(chars: seq<CharInfo>, pos: nat, target: char) returns (r: Option<CharInfo>)
    ensures r == (match RobustIndex(chars, pos, target) case None => None case Some(i) => Some(chars[i]))
  {
    if |chars| == 0 || pos >= |chars| {
      return None;
    }
    var info := chars[pos];
    if info.ch == [target] {
      return Some(info);
    }
    var near := ScanWindow(chars, pos, target);
    if near.Some? {
      return Some(chars[near.value]);
    }
    var wide := ScanWide(chars, pos, target);
    if wide.Some? {
      return Some(chars[wide.value]);
    }
    return None;
  }

  /** Some kept box of f overlaps c by more than the threshold. */
  predicate Overlaps(c: Candidate, f: seq<Candidate>, threshold: real)
  {
    exists m :: 0 <= m < |f| && Iou(c.box, f[m].box) > threshold
  }

  /**
   * The greedy suppression of `apply_bbox_nms` over a list already in
   * non-increasing score order: each box is kept unless it overlaps an
   * earlier kept box by more than the threshold.
   */
  function Nms(s: seq<Candidate>, threshold: real): (r: seq<Candidate>)
    ensures |r| <= |s|
    ensures s != [] ==> r != [] && r[0] == s[0]
    ensures forall c :: c in r ==> c in s
  {
    if s == [] then []
    else
      var f := Nms(s[..|s| - 1], threshold);
      assert forall c :: c in s[..|s| - 1] ==> c in s;
      assert |s| > 1 ==> s[..|s| - 1][0] == s[0];
      if Overlaps(s[|s| - 1], f, threshold) then f else f + [s[|s| - 1]]
  }

  /** The positions in s of the boxes `Nms` keeps. */
  ghost function KeptIndices(s: seq<Candidate>, threshold: real): seq<nat>
  {
    if s == [] then []
    else
      var n := |s| - 1;
      if Overlaps(s[n], Nms(s[..n], threshold), threshold) then KeptIndices(s[..n], threshold)
      else KeptIndices(s[..n], threshold) + [n]
  }

  /** The kept boxes are the subsequence of the ranked list at strictly increasing positions. */
  lemma {:induction false} NmsSubsequence(s: seq<Candidate>, threshold: real)
    ensures |KeptIndices(s, threshold)| == |Nms(s, threshold)|
    ensures forall k :: 0 <= k < |KeptIndices(s, threshold)| ==>
              KeptIndices(s, threshold)[k] < |s| && Nms(s, threshold)[k] == s[KeptIndices(s, threshold)[k]]
    ensures forall a, b :: 0 <= a < b < |KeptIndices(s, threshold)| ==>
              KeptIndices(s, threshold)[a] < KeptIndices(s, threshold)[b]
  {
    if s != [] {
      var n := |s| - 1;
      var pre := s[..n];
      var f := Nms(pre, threshold);
      var pidx := KeptIndices(pre, threshold);
      NmsSubsequence(pre, threshold);
      if !Overlaps(s[n], f, threshold) {
        var idx := pidx + [n];
        assert Nms(s, threshold) == f + [s[n]];
        forall k | 0 <= k < |idx| ensures idx[k] < |s| && Nms(s, threshold)[k] == s[idx[k]] {
          if k < |pidx| {
            assert idx[k] == pidx[k] && s[pidx[k]] == pre[pidx[k]];
          }
        }
      }
    }
  }

  /** Every position of s outside idx overlaps, by more than the threshold, an earlier position in idx. */
  ghost predicate DroppedCovered(s: seq<Candidate>, idx: seq<nat>, threshold: real)
  {
    forall i :: 0 <= i < |s| && i !in idx ==>
      exists k :: 0 <= k < |idx| && idx[k] < i && Iou(s[i].box, s[idx[k]].box) > threshold
  }

  /** Every box `Nms` drops overlaps an earlier kept box by more than the threshold. */
  lemma {:induction false} NmsDropped(s: seq<Candidate>, threshold: real)
    ensures DroppedCovered(s, KeptIndices(s, threshold), threshold)
  {
    if s != [] {
      NmsDropped(s[..|s| - 1], threshold);
      DroppedExtend(s, threshold);
    }
  }

  /** The step of `NmsDropped`: the property for all but the last box extends to the whole list. */
  lemma DroppedExtend(s: seq<Candidate>, threshold: real)
    requires s != []
    requires DroppedCovered(s[..|s| - 1], KeptIndices(s[..|s| - 1], threshold), threshold)
    ensures DroppedCovered(s, KeptIndices(s, threshold), threshold)
  {
    var n := |s| - 1;
    var pidx := KeptIndices(s[..n], threshold);
    if Overlaps(s[n], Nms(s[..n], threshold), threshold) {
      assert KeptIndices(s, threshold) == pidx;
      LastOverlapsKept(s, pidx, threshold);
      CoveredDroppedLast(s, pidx, threshold);
    } else {
      assert KeptIndices(s, threshold) == pidx + [n];
      CoveredKeptLast(s, pidx, threshold);
    }
  }

  /** A dropped last box overlaps a box kept from the list before it. */
  lemma LastOverlapsKept(s: seq<Candidate>, pidx: seq<nat>, threshold: real)
    requires s != [] && pidx == KeptIndices(s[..|s| - 1], threshold)
    requires Overlaps(s[|s| - 1], Nms(s[..|s| - 1], threshold), threshold)
    ensures exists k :: 0 <= k < |pidx| && pidx[k] < |s| - 1 && Iou(s[|s| - 1].box, s[pidx[k]].box) > threshold
  {
    var n := |s| - 1;
    var f := Nms(s[..n], threshold);
    NmsSubsequence(s[..n], threshold);
    var m :| 0 <= m < |f| && Iou(s[n].box, f[m].box) > threshold;
    assert s[pidx[m]] == f[m];
  }

  /** When the last box is dropped, the kept positions stay and still cover every dropped box. */
  lemma CoveredDroppedLast(s: seq<Candidate>, idx: seq<nat>, threshold: real)
    requires s != [] && DroppedCovered(s[..|s| - 1], idx, threshold)
    requires exists k :: 0 <= k < |idx| && idx[k] < |s| - 1 && Iou(s[|s| - 1].box, s[idx[k]].box) > threshold
    ensures DroppedCovered(s, idx, threshold)
  {
    var pre := s[..|s| - 1];
    forall i | 0 <= i < |s| - 1 && i !in idx
      ensures exists k :: 0 <= k < |idx| && idx[k] < i && Iou(s[i].box, s[idx[k]].box) > threshold
    {
      var k :| 0 <= k < |idx| && idx[k] < i && Iou(pre[i].box, pre[idx[k]].box) > threshold;
      assert s[idx[k]] == pre[idx[k]] && s[i] == pre[i];
    }
  }

  /** When the last box is kept, its position joins the kept ones, which still cover every dropped box. */
  lemma CoveredKeptLast(s: seq<Candidate>, idx: seq<nat>, threshold: real)
    requires s != [] && DroppedCovered(s[..|s| - 1], idx, threshold)
    ensures DroppedCovered(s, idx + [|s| - 1], threshold)
  {
    var pre := s[..|s| - 1];
    var next := idx + [|s| - 1];
    forall i | 0 <= i < |s| && i !in next
      ensures exists k :: 0 <= k < |next| && next[k] < i && Iou(s[i].box, s[next[k]].box) > threshold
    {
      assert i < |s| - 1 && i !in idx;
      var k :| 0 <= k < |idx| && idx[k] < i && Iou(pre[i].box, pre[idx[k]].box) > threshold;
      assert next[k] == idx[k] && s[idx[k]] == pre[idx[k]] && s[i] == pre[i];
    }
  }

  /** No two kept boxes overlap by more than the threshold, in either order. */
  lemma {:induction false} NmsPairwise(s: seq<Candidate>, threshold: real)
    ensures forall a, b :: 0 <= a < b < |Nms(s, threshold)| ==>
              Iou(Nms(s, threshold)[a].box, Nms(s, threshold)[b].box) <= threshold
              && Iou(Nms(s, threshold)[b].box, Nms(s, threshold)[a].box) <= threshold
  {
    if s != [] {
      var n := |s| - 1;
      var f := Nms(s[..n], threshold);
      NmsPairwise(s[..n], threshold);
      forall m | 0 <= m < |f| ensures Iou(f[m].box, s[n].box) == Iou(s[n].box, f[m].box) {
        IouSymmetric(f[m].box, s[n].box);
      }
    }
  }

  /** Kept in ranked order: suppressing a non-increasing list leaves it non-increasing. */
  lemma NmsSorted(s: seq<Candidate>, threshold: real)
    requires SortedDesc(s, ScoreKey)
    ensures SortedDesc(Nms(s, threshold), ScoreKey)
  {
    NmsSubsequence(s, threshold);
  }

  /**
   * The inner scan of `apply_bbox_nms`: the current box is kept unless a
   * kept box overlaps it by more than the threshold. The branch that would
   * drop an earlier kept box for a higher-scoring current box is
   * unreachable, because earlier kept boxes never score lower.
   */
  method ShouldKeep(current: Candidate, filtered: seq<Candidate>, threshold: real) returns (shouldKeep: bool)
    requires forall m :: 0 <= m < |filtered| ==> filtered[m].score >= current.score
    ensures shouldKeep == !Overlaps(current, filtered, threshold)
  {
    shouldKeep := true;
    var j := 0;
    while j < |filtered|
      invariant 0 <= j <= |filtered|
      invariant forall m :: 0 <= m < j ==> Iou(current.box, filtered[m].box) <= threshold
    {
      var kept := filtered[j];
      var iou := Iou(current.box, kept.box);
      if iou > threshold {
        if current.score <= kept.score {
          shouldKeep := false;
          return;
        } else {
          assert false;
        }
      }
      j := j + 1;
    }
  }

  /** Suppressing one more box of a list appends it exactly when it overlaps no box kept so far. */
  lemma NmsSnoc(s: seq<Candidate>, i: nat, threshold: real)
    requires i < |s|
    ensures Nms(s[..i + 1], threshold) ==
      if Overlaps(s[i], Nms(s[..i], threshold), threshold) then Nms(s[..i], threshold)
      else Nms(s[..i], threshold) + [s[i]]
  {
    assert s[..i + 1][..i] == s[..i];
  }

  /** Boxes taken from before position i of a score-sorted list score at least as high as the box at i. */
  lemma KeptOutscore(sorted: seq<Candidate>, i: nat, kept: seq<Candidate>)
    requires i < |sorted| && SortedDesc(sorted, ScoreKey)
    requires forall c :: c in kept ==> c in sorted[..i]
    ensures forall m :: 0 <= m < |kept| ==> kept[m].score >= sorted[i].score
  {
    forall m | 0 <= m < |kept| ensures kept[m].score >= sorted[i].score {
      assert kept[m] in sorted[..i];
      var j :| 0 <= j < i && sorted[j] == kept[m];
      assert ScoreKey(sorted[j]) >= ScoreKey(sorted[i]);
    }
  }

  /** One pass of the suppression loop: the box at position i is kept exactly when it overlaps no box kept before it. */
  method NmsStep(sorted: seq<Candidate>, i: nat, filtered: seq<Candidate>, threshold: real) returns (next: seq<Candidate>)
    requires i < |sorted| && SortedDesc(sorted, ScoreKey)
    requires filtered == Nms(sorted[..i], threshold)
    ensures next == Nms(sorted[..i + 1], threshold)
  {
    var current := sorted[i];
    KeptOutscore(sorted, i, filtered);
    var shouldKeep := ShouldKeep(current, filtered, threshold);
    NmsSnoc(sorted, i, threshold);
    next := filtered;
    if shouldKeep {
      next := next + [current];
    }
  }

  /**
   * `apply_bbox_nms`: rank by score (stably, highest first), then keep each
   * box unless an earlier kept box overlaps it by more than the threshold.
   */
  method ApplyBboxNms(boxes: seq<Candidate>, threshold: real) returns (filtered: seq<Candidate>)
    ensures filtered == Nms(SortDesc(boxes, ScoreKey), threshold)
  {
    if |boxes| == 0 {
      return [];
    }
    var sorted := SortDesc(boxes, ScoreKey);
    filtered := [];
    for i := 0 to |sorted|
      invariant filtered == Nms(sorted[..i], threshold)
    {
      filtered := NmsStep(sorted, i, filtered, threshold);
    }
    assert sorted[..|sorted|] == sorted;
  }

  /**
   * The box record `c` comes from the edit record `m`: same score, characters
   * and kind, and its box is that of the entry `RobustIndex` finds for `m`.
   */
  predicate LocatedFrom(c: Candidate, m: Modified, chars: seq<CharInfo>)
  {
    c.score == m.score && c.original == m.original && c.corrected == m.corrected && c.kind == m.kind
    && RobustIndex(chars, m.pos, m.original).Some?
    && c.box == GetCharBbox(chars[RobustIndex(chars, m.pos, m.original).value])
  }

  /**
   * The box records of one sentence's edit records, in record order: each
   * record is resolved with `RobustIndex` and skipped when that fails. Every
   * box belongs to a character entry that holds the record's source
   * character, within 5 of the record's position, and carries the record's
   * score, character and kind; a record resolved by `RobustIndex` always
   * yields its box.
   */
  function Located(ms: seq<Modified>, chars: seq<CharInfo>, id: int): (r: seq<Candidate>)
    ensures |r| <= |ms|
    ensures forall c :: c in r ==>
              c.sentenceId == id && exists i :: 0 <= i < |chars| && chars[i].ch == [c.original] && c.box == GetCharBbox(chars[i])
    ensures forall c :: c in r ==>
              exists k :: 0 <= k < |ms| && LocatedFrom(c, ms[k], chars)
    ensures forall k :: 0 <= k < |ms| && RobustIndex(chars, ms[k].pos, ms[k].original).Some? ==>
              Candidate(GetCharBbox(chars[RobustIndex(chars, ms[k].pos, ms[k].original).value]), ms[k].score,
                        ms[k].original, ms[k].corrected, ms[k].kind, id, None) in r
  {
    if ms == [] then []
    else
      var m := ms[|ms| - 1];
      assert forall k :: 0 <= k < |ms| - 1 ==> ms[..|ms| - 1][k] == ms[k];
      Located(ms[..|ms| - 1], chars, id) +
      match RobustIndex(chars, m.pos, m.original)
      case None => []
      case Some(i) => [Candidate(GetCharBbox(chars[i]), m.score, m.original, m.corrected, m.kind, id, None)]
  }

  /** The box records one correction item contributes: none without a sentence id or a non-empty matching sentence. */
  function ItemCandidates(item: CorrectionItem, sentences: seq<Sentence>): seq<Candidate>
    requires AllInRange(item.ops, item.source, item.predict)
  {
    match item.sentenceId
    case None => []
    case Some(id) =>
      match SentenceChars(sentences, id)
      case None => []
      case Some(chars) =>
        if chars == [] then [] else Located(ModifiedChars(item.ops, item.source, item.predict), chars, id)
  }

  /** The box records of all items, in item order. */
  function Collected(items: seq<CorrectionItem>, sentences: seq<Sentence>): seq<Candidate>
    requires forall k :: 0 <= k < |items| ==> AllInRange(items[k].ops, items[k].source, items[k].predict)
  {
    if items == [] then []
    else Collected(items[..|items| - 1], sentences) + ItemCandidates(items[|items| - 1], sentences)
  }

  /** The resolution loop over one sentence's records. */
  method LocateRecords(modified: seq<Modified>, chars: seq<CharInfo>, id: int) returns (found: seq<Candidate>)
    ensures found == Located(modified, chars, id)
  {
    found := [];
    for n := 0 to |modified|
      invariant found == Located(modified[..n], chars, id)
    {
      var m := modified[n];
      var info := FindCharBboxRobust(chars, m.pos, m.original);
      assert modified[..n + 1][..n] == modified[..n];
      if info.Some? {
        found := found + [Candidate(GetCharBbox(info.value), m.score, m.original, m.corrected, m.kind, id, None)];
      }
    }
    assert modified[..|modified|] == modified;
  }

  /** The sentence lookup and resolution for one item. */
  method ItemBoxes(item: CorrectionItem, modified: seq<Modified>, sentences: seq<Sentence>) returns (found: seq<Candidate>)
    requires AllInRange(item.ops, item.source, item.predict)
    requires modified == ModifiedChars(item.ops, item.source, item.predict)
    ensures found == ItemCandidates(item, sentences)
  {
    found := [];
    if item.sentenceId.Some? {
      var id := item.sentenceId.value;
      var chars := FindSentence(sentences, id);
      if chars.Some? && chars.value != [] {
        found := LocateRecords(modified, chars.value, id);
      }
    }
  }

  /** One pass of the collection loop: the item's edit records, then their boxes. */
  method CollectItem(item: CorrectionItem, sentences: seq<Sentence>) returns (found: seq<Candidate>)
    requires WellFormed(item.ops, item.source, item.predict)
    ensures AllInRange(item.ops, item.source, item.predict)
    ensures found == ItemCandidates(item, sentences)
  {
    var modified := FindModifiedChars(item.source, item.predict, item.ops);
    found := ItemBoxes(item, modified, sentences);
  }

  /** Extending the items extends the collected records by the new item's records. */
  lemma CollectedSnoc(items: seq<CorrectionItem>, n: nat, sentences: seq<Sentence>)
    requires n < |items|
    requires forall k :: 0 <= k < |items| ==> AllInRange(items[k].ops, items[k].source, items[k].predict)
    ensures Collected(items[..n + 1], sentences) == Collected(items[..n], sentences) + ItemCandidates(items[n], sentences)
  {
    assert items[..n + 1][..n] == items[..n];
  }

  /** The collection loop of `process_corrected_file` over the correction items. */
  method CollectCandidates(items: seq<CorrectionItem>, sentences: seq<Sentence>)
    returns (predicted: seq<string>, all: seq<Candidate>)
    requires ItemsWellFormed(items)
    ensures forall k :: 0 <= k < |items| ==> AllInRange(items[k].ops, items[k].source, items[k].predict)
    ensures predicted == Predicts(items)
    ensures all == Collected(items, sentences)
  {
    ItemsInRange(items);
    predicted := [];
    all := [];
    for n := 0 to |items|
      invariant predicted == Predicts(items[..n])
      invariant all == Collected(items[..n], sentences)
    {
      var item := items[n];
      PredictsSnoc(items, n);
      predicted := predicted + [item.predict];
      var found := CollectItem(item, sentences);
      CollectedSnoc(items, n, sentences);
      all := all + found;
    }
    assert items[..|items|] == items;
  }

  /** Ranking twice and suppressing keeps, first, the earliest record of greatest score. */
  lemma TopAfterSuppression(c: seq<Candidate>, threshold: real)
    ensures c == [] ==> Nms(SortDesc(SortDesc(c, ScoreKey), ScoreKey), threshold) == []
    ensures c != [] ==> Nms(SortDesc(SortDesc(c, ScoreKey), ScoreKey), threshold)[0] == c[FirstMaxIndex(c, ScoreKey)]
  {
    SortIdempotent(c, ScoreKey);
    if c != [] {
      SortHead(c, ScoreKey);
    }
  }

  /** `for bbox in filtered_bboxes[:1]`: the box of the first kept record, if any. */
  method FirstBox(filtered: seq<Candidate>) returns (boxes: seq<Box>)
    ensures filtered == [] ==> boxes == []
    ensures filtered != [] ==> boxes == [filtered[0].box]
  {
    boxes := [];
    for k := 0 to if |filtered| < 1 then |filtered| else 1
      invariant k == 0 ==> boxes == []
      invariant k == 1 ==> boxes == [filtered[0].box]
    {
      boxes := boxes + [filtered[k].box];
    }
  }

  /** The suppression threshold `process_corrected_file` passes. */
  const NmsThreshold: real := 0.7

  /**
   * The in-memory part of `process_corrected_file`: the corrected sentences
   * joined by single spaces, and at most one box, that of the
   * highest-scoring collected record (the earliest one among equal scores).
   */
  method ProcessCorrectedFile(items: seq<CorrectionItem>, sentences: seq<Sentence>) returns (text: string, boxes: seq<Box>)
    requires ItemsWellFormed(items)
    ensures forall k :: 0 <= k < |items| ==> AllInRange(items[k].ops, items[k].source, items[k].predict)
    ensures text == Join(Predicts(items), " ")
    ensures |boxes| <= 1
    ensures boxes == [] <==> Collected(items, sentences) == []
    ensures Collected(items, sentences) != [] ==>
              boxes == [Collected(items, sentences)[FirstMaxIndex(Collected(items, sentences), ScoreKey)].box]
  {
    var predicted, all := CollectCandidates(items, sentences);
    TopAfterSuppression(all, NmsThreshold);
    var ranked := SortDesc(all, ScoreKey);
    var filtered := ApplyBboxNms(ranked, NmsThreshold);
    boxes := FirstBox(filtered);
    text := Join(predicted, " ");
  }
}

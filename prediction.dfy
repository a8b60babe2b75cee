/**
 * The second prediction variant: edit records scored by a base score plus
 * bonuses and a random jitter, resolved to boxes within a window of 3, and
 * selected greedily by score, position diversity and type balance.
 */
module Prediction {
  import opened Options
  import opened Text
  import opened Lexicon
  import opened Geometry
  import opened Sorting
  import opened Alignment
  import opened Documents
  import PaddlePrediction

  /* ---------------------------------------------------------------- scoring */

  /** Draws of `random.uniform(-2, 2)`, one per scored position. */
  ghost predicate Uniform(jitter: nat -> real)
  {
    forall p: nat :: -2.0 <= jitter(p) <= 2.0
  }

  /**
   * The insert branch of `calculate_error_score`: base 50, a common particle
   * (30), a substring of the omission punctuation string (25), and 20 for a
   * single character, 15 otherwise. It returns before the random draw.
   */
  function InsertScore(inserted: string): (r: int)
    ensures 65 <= r <= 125
  {
    50
    + (if inserted in CommonOmissions then 30 else 0)
    + (if Contains(OmissionPunctuation, inserted) then 25 else 0)
    + (if |inserted| == 1 then 20 else 15)
  }

  /**
   * The bonuses of the replace/delete branch: a visual look-alike (40), a
   * homophone (35), a traditional form (30), punctuation on both sides (15,
   * as substring tests, so an empty correction qualifies), digits or letters
   * on both sides (20) and a central position (5).
   */
  function ReplaceBonus(original: string, corrected: string, context: string, pos: nat): (r: nat)
    ensures r <= 145
    ensures TablePair(SimilarPairs, original, corrected) ==> r >= 40
  {
    (if TablePair(SimilarPairs, original, corrected) then 40 else 0)
    + (if TablePair(PhoneticPairs, original, corrected) then 35 else 0)
    + (if TablePair(TraditionalSimplified, original, corrected) then 30 else 0)
    + (if Contains(Punctuation, original) && Contains(Punctuation, corrected) then 15 else 0)
    + (if SameClass(original, corrected) then 20 else 0)
    + (if Central(pos, |context|) then 5 else 0)
  }

  /**
   * `calculate_error_score`, with `jitter` the value `random.uniform(-2, 2)`
   * returns on the call. An insert scores 65 to 125 whatever the draw; any
   * other edit scores at least 48.
   */
  function ErrorScore(original: string, corrected: string, context: string, pos: nat, isInsert: bool, jitter: real): (r: real)
    requires -2.0 <= jitter <= 2.0
    ensures isInsert ==> 65.0 <= r <= 125.0
    ensures !isInsert ==> 48.0 <= r <= 197.0
  {
    if isInsert then InsertScore(corrected) as real
    else (50 + ReplaceBonus(original, corrected, context, pos)) as real + jitter
  }

  /** The insert score does not depend on the original, the context, the position or the draw. */
  lemma InsertScoreIgnoresDraw(o1: string, o2: string, inserted: string, c1: string, c2: string, p1: nat, p2: nat, j1: real, j2: real)
    requires -2.0 <= j1 <= 2.0 && -2.0 <= j2 <= 2.0
    ensures ErrorScore(o1, inserted, c1, p1, true, j1) == ErrorScore(o2, inserted, c2, p2, true, j2)
  {
  }

  /** A single common particle scores 100: the particles are single characters and no punctuation. */
  lemma ParticleInsertScore(inserted: string)
    requires inserted in CommonOmissions
    ensures InsertScore(inserted) == 100
  {
    ParticlesAreIdeographs(inserted);
    assert inserted == [inserted[0]];
    ContainsSingle(OmissionPunctuation, inserted[0]);
    if inserted[0] in OmissionPunctuation {
      OmissionPunctuationNotCjk(inserted[0]);
      assert false;
    }
  }

  /**
   * The look-alike bonus beats the homophone or traditional-form bonus by
   * more than the spread of two draws: whatever the jitter, a look-alike
   * correction outscores another partner of the same character.
   */
  lemma VisualOutranksUnderJitter(original: char, visual: string, other: string, context: string, pos: nat, j1: real, j2: real)
    requires TablePair(SimilarPairs, [original], visual)
    requires TablePair(PhoneticPairs, [original], other) || TablePair(TraditionalSimplified, [original], other)
    requires -2.0 <= j1 <= 2.0 && -2.0 <= j2 <= 2.0
    ensures ErrorScore([original], visual, context, pos, false, j1) > ErrorScore([original], other, context, pos, false, j2)
  {
    DoublePartner(original, visual, other);
    YiPartners();
    assert SameClass("已", "己") && SameClass("已", "以");
    ContainsSingle(Punctuation, '已');
  }

  /** Deleting a punctuation mark earns the punctuation bonus, because the empty correction is a substring of the marks. */
  lemma DeletedPunctuationBonus(mark: char, context: string, pos: nat, jitter: real)
    requires mark in Punctuation
    requires -2.0 <= jitter <= 2.0
    ensures ErrorScore([mark], "", context, pos, false, jitter) >= 63.0
  {
    ContainsEmpty(Punctuation);
    ContainsSingle(Punctuation, mark);
  }

  /* ------------------------------------------------------------ edit records */

  /** The score of one edit; the insert branch ignores its draw. */
  function Score(e: EditOp, source: string, jitter: nat -> real): real
    requires Uniform(jitter)
  {
    if e.kind == InsertEdit then ErrorScore("", e.text, source, e.pos, true, jitter(e.pos))
    else ErrorScore([e.original], e.text, source, e.pos, false, jitter(e.pos))
  }

  /** The scored records of a list of edits, in the same order. */
  function Scored(es: seq<EditOp>, source: string, jitter: nat -> real): (r: seq<Modified>)
    requires Uniform(jitter)
    ensures |r| == |es|
    ensures forall n :: 0 <= n < |r| ==> r[n] == Record(es[n], Score(es[n], source, jitter))
  {
    seq(|es|, n requires 0 <= n < |es| => Record(es[n], Score(es[n], source, jitter)))
  }

  lemma {:induction false} ScoredAppend(a: seq<EditOp>, b: seq<EditOp>, source: string, jitter: nat -> real)
    requires Uniform(jitter)
    ensures Scored(a + b, source, jitter) == Scored(a, source, jitter) + Scored(b, source, jitter)
  {
    var l := Scored(a + b, source, jitter);
    var r := Scored(a, source, jitter) + Scored(b, source, jitter);
    assert |l| == |r|;
    forall n | 0 <= n < |l| ensures l[n] == r[n] {
      if n < |a| { assert (a + b)[n] == a[n]; } else { assert (a + b)[n] == b[n - |a|]; }
    }
  }

  /** Scoring one more edit appends its record. */
  lemma ScoredSnoc(es: seq<EditOp>, k: nat, source: string, jitter: nat -> real)
    requires Uniform(jitter) && k < |es|
    ensures Scored(es[..k + 1], source, jitter) == Scored(es[..k], source, jitter) + [Record(es[k], Score(es[k], source, jitter))]
  {
    assert es[..k + 1] == es[..k] + [es[k]];
    ScoredAppend(es[..k], [es[k]], source, jitter);
  }

  /** What this variant's `find_modified_chars` returns: the scored records in opcode order, unsorted. */
  function ModifiedChars(ops: seq<Opcode>, source: string, target: string, jitter: nat -> real): seq<Modified>
    requires AllInRange(ops, source, target) && Uniform(jitter)
  {
    Scored(Align(ops, source, target), source, jitter)
  }

  /** Records in non-decreasing source position. */
  ghost predicate RecordsInOrder(ms: seq<Modified>)
  {
    forall i, j :: 0 <= i < j < |ms| ==> ms[i].pos <= ms[j].pos
  }

  /** One scored record: inserts score 65 to 125 and carry the `[+...]` marker, other records at least 48. */
  lemma RecordFacts(e: EditOp, source: string, jitter: nat -> real)
    requires Uniform(jitter)
    ensures var m := Record(e, Score(e, source, jitter));
            && m.pos == e.pos && m.original == e.original && m.kind == e.kind
            && (m.kind == InsertEdit ==> 65.0 <= m.score <= 125.0 && |m.corrected| >= 2 && m.corrected[..2] == "[+")
            && (m.kind != InsertEdit ==> 48.0 <= m.score)
  {
    var m := Record(e, Score(e, source, jitter));
    if e.kind == InsertEdit {
      assert m.corrected[..2] == "[+";
    }
  }

  /**
   * The records come in source-position order, each anchored at a source
   * character; inserts score 65 to 125 and carry the `[+...]` marker, every
   * other record scores at least 48; an empty source yields none.
   */
  lemma ModifiedCharsFacts(ops: seq<Opcode>, source: string, target: string, jitter: nat -> real)
    requires WellFormed(ops, source, target) && Uniform(jitter)
    ensures AllInRange(ops, source, target)
    ensures RecordsInOrder(ModifiedChars(ops, source, target, jitter))
    ensures forall m :: m in ModifiedChars(ops, source, target, jitter) ==>
              m.pos < |source| && m.original == source[m.pos]
              && (m.kind == InsertEdit ==> 65.0 <= m.score <= 125.0 && |m.corrected| >= 2 && m.corrected[..2] == "[+")
              && (m.kind != InsertEdit ==> 48.0 <= m.score)
    ensures source == [] ==> ModifiedChars(ops, source, target, jitter) == []
  {
    AlignOrdered(ops, source, target);
    var es := Align(ops, source, target);
    var ms := ModifiedChars(ops, source, target, jitter);
    assert RecordsInOrder(ms) by {
      forall i, j | 0 <= i < j < |ms| ensures ms[i].pos <= ms[j].pos {
        assert ms[i].pos == es[i].pos && ms[j].pos == es[j].pos;
      }
    }
    forall m | m in ms
      ensures m.pos < |source| && m.original == source[m.pos]
      ensures m.kind == InsertEdit ==> 65.0 <= m.score <= 125.0 && |m.corrected| >= 2 && m.corrected[..2] == "[+"
      ensures m.kind != InsertEdit ==> 48.0 <= m.score
    {
      var n :| 0 <= n < |ms| && ms[n] == m;
      RecordFacts(es[n], source, jitter);
    }
    if source == [] {
      AlignEmptySource(ops, source, target, |target|);
    }
  }

  /** The body of the replace loop for offset k: the source character paired with the target character at the same offset, if any. */
  method ReplaceRecordAt(op: Opcode, source: string, target: string, jitter: nat -> real, k: nat) returns (record: Modified)
    requires InRange(op, source, target) && op.tag == Replace && Uniform(jitter) && k < op.i2 - op.i1
    ensures var e := OpcodeEdits(op, source, target)[k]; record == Record(e, Score(e, source, jitter))
  {
    var targetLen := op.j2 - op.j1;
    var sourceIdx := op.i1 + k;
    var targetIdx := op.j1 + k;
    var originalChar := source[sourceIdx];
    var correctedChar := if k < targetLen && targetIdx < |target| then [target[targetIdx]] else [];
    var score := ErrorScore([originalChar], correctedChar, source, sourceIdx, false, jitter(sourceIdx));
    ReplaceEditAt(op, source, target, k);
    record := Modified(sourceIdx, originalChar, correctedChar, score, ReplaceEdit);
  }

  /** The records of a replace opcode: one per source index of its range, each scored with its own draw. */
  method ReplaceRecords(op: Opcode, source: string, target: string, jitter: nat -> real) returns (rs: seq<Modified>)
    requires InRange(op, source, target) && op.tag == Replace && Uniform(jitter)
    ensures rs == Scored(OpcodeEdits(op, source, target), source, jitter)
  {
    ghost var edits := OpcodeEdits(op, source, target);
    rs := [];
    var sourceLen := op.i2 - op.i1;
    var targetLen := op.j2 - op.j1;
    var maxLen := if sourceLen >= targetLen then sourceLen else targetLen;
    for k := 0 to maxLen
      invariant k <= sourceLen ==> rs == Scored(edits[..k], source, jitter)
      invariant sourceLen <= k ==> rs == Scored(edits, source, jitter)
    {
      if k < sourceLen && op.i1 + k < |source| {
        var record := ReplaceRecordAt(op, source, target, jitter, k);
        ScoredSnoc(edits, k, source, jitter);
        rs := rs + [record];
        if k + 1 == sourceLen {
          assert edits[..k + 1] == edits;
        }
      }
    }
  }

  /** The body of the delete loop for offset k: the source character paired with the empty correction. */
  method DeleteRecordAt(op: Opcode, source: string, target: string, jitter: nat -> real, k: nat) returns (record: Modified)
    requires InRange(op, source, target) && op.tag == Delete && Uniform(jitter) && k < op.i2 - op.i1
    ensures var e := OpcodeEdits(op, source, target)[k]; record == Record(e, Score(e, source, jitter))
  {
    var p := op.i1 + k;
    var originalChar := source[p];
    var score := ErrorScore([originalChar], [], source, p, false, jitter(p));
    DeleteEditAt(op, source, target, k);
    ghost var e := OpcodeEdits(op, source, target)[k];
    assert e.kind == DeleteEdit && e.original == originalChar && e.text == [] && e.pos == p;
    assert Score(e, source, jitter) == score;
    record := Modified(p, originalChar, [], score, DeleteEdit);
  }

  /** The records of a delete opcode: one per source index of its range, with an empty correction. */
  method DeleteRecords(op: Opcode, source: string, target: string, jitter: nat -> real) returns (rs: seq<Modified>)
    requires InRange(op, source, target) && op.tag == Delete && Uniform(jitter)
    ensures rs == Scored(OpcodeEdits(op, source, target), source, jitter)
  {
    ghost var edits := OpcodeEdits(op, source, target);
    rs := [];
    for k := 0 to op.i2 - op.i1
      invariant rs == Scored(edits[..k], source, jitter)
    {
      if op.i1 + k < |source| {
        var record := DeleteRecordAt(op, source, target, jitter, k);
        ScoredSnoc(edits, k, source, jitter);
        rs := rs + [record];
      }
    }
    assert edits[..op.i2 - op.i1] == edits;
  }

  /** The record of an insert opcode, anchored at its context character when there is one. */
  method InsertRecords(op: Opcode, source: string, target: string, jitter: nat -> real) returns (rs: seq<Modified>)
    requires InRange(op, source, target) && op.tag == Insert && Uniform(jitter)
    ensures rs == Scored(OpcodeEdits(op, source, target), source, jitter)
  {
    rs := [];
    var insertedText := target[op.j1..op.j2];
    var contextPos: Option<nat> := None;
    if op.i1 > 0 {
      contextPos := Some(op.i1 - 1);
    } else if op.i1 < |source| {
      contextPos := Some(op.i1);
    }
    if contextPos.Some? && contextPos.value < |source| {
      var contextChar := source[contextPos.value];
      var score := ErrorScore("", insertedText, source, contextPos.value, true, jitter(contextPos.value));
      rs := [Modified(contextPos.value, contextChar, "[+" + insertedText + "]", score, InsertEdit)];
    }
  }

  /** The records of one opcode; an equal block has none. */
  method OpcodeRecords(op: Opcode, source: string, target: string, jitter: nat -> real) returns (rs: seq<Modified>)
    requires InRange(op, source, target) && Uniform(jitter)
    ensures rs == Scored(OpcodeEdits(op, source, target), source, jitter)
  {
    match op.tag {
      case Equal => rs := [];
      case Replace => rs := ReplaceRecords(op, source, target, jitter);
      case Delete => rs := DeleteRecords(op, source, target, jitter);
      case Insert => rs := InsertRecords(op, source, target, jitter);
    }
  }

  /** This variant's `find_modified_chars`: the records of each opcode in turn, with no reordering. */
  method FindModifiedChars(source: string, target: string, ops: seq<Opcode>, jitter: nat -> real) returns (r: seq<Modified>)
    requires WellFormed(ops, source, target) && Uniform(jitter)
    ensures AllInRange(ops, source, target)
    ensures r == ModifiedChars(ops, source, target, jitter)
  {
    TilesInRange(ops, source, target, |source|, |target|);
    r := [];
    for n := 0 to |ops|
      invariant r == Scored(Align(ops[..n], source, target), source, jitter)
    {
      var rs := OpcodeRecords(ops[n], source, target, jitter);
      assert ops[..n + 1][..n] == ops[..n];
      ScoredAppend(Align(ops[..n], source, target), OpcodeEdits(ops[n], source, target), source, jitter);
      r := r + rs;
    }
    assert ops[..|ops|] == ops;
  }

  /* ------------------------------------------------------------ box lookup */

  /**
   * The index `find_char_bbox` settles on: none when the list is empty or
   * the position is past its end; the position itself when its entry
   * matches; else the leftmost match within 3.
   */
  function NearIndex(chars: seq<CharInfo>, pos: nat, target: char): (r: Option<nat>)
    ensures r.Some? ==> r.value < |chars| && chars[r.value].ch == [target]
    ensures r.Some? ==> pos <= r.value + 3 && r.value <= pos + 3
    ensures r.None? <==> pos >= |chars|
                         || forall i :: WindowLo(pos, 3) <= i < WindowHi(pos, 3, |chars|) ==> chars[i].ch != [target]
    ensures r.Some? && r.value != pos ==>
              chars[pos].ch != [target] && forall i :: WindowLo(pos, 3) <= i < r.value ==> chars[i].ch != [target]
  {
    if chars == [] || pos >= |chars| then None
    else if chars[pos].ch == [target] then Some(pos)
    else FirstMatch(chars, [target], WindowLo(pos, 3), WindowHi(pos, 3, |chars|))
  }

  /**
   * The robust resolver of the other variant extends this one: whatever
   * this one finds, the robust one finds too; when only the robust one
   * finds a match, it lies 4 or 5 positions away.
   */
  lemma NearAgreesWithRobust(chars: seq<CharInfo>, pos: nat, target: char)
    ensures NearIndex(chars, pos, target).Some? ==> PaddlePrediction.RobustIndex(chars, pos, target) == NearIndex(chars, pos, target)
    ensures NearIndex(chars, pos, target).None? && PaddlePrediction.RobustIndex(chars, pos, target).Some? ==>
              var i := PaddlePrediction.RobustIndex(chars, pos, target).value;
              pos + 4 <= i || i + 4 <= pos
  {
  }

  /** `find_char_bbox`: the direct hit, then the window scan over offsets -3 to 3. */
  method FindCharBbox(chars: seq<CharInfo>, pos: nat, target: char) returns (r: Option<CharInfo>)
    ensures r == (match NearIndex(chars, pos, target) case None => None case Some(i) => Some(chars[i]))
  {
    if |chars| == 0 || pos >= |chars| {
      return None;
    }
    if pos < |chars| && chars[pos].ch == [target] {
      return Some(chars[pos]);
    }
    for offset := -3 to 4
      invariant forall i :: WindowLo(pos, 3) <= i < WindowHi(pos, 3, |chars|) && i < pos + offset ==> chars[i].ch != [target]
    {
      var checkIdx := pos + offset;
      if 0 <= checkIdx < |chars| && chars[checkIdx].ch == [target] {
        return Some(chars[checkIdx]);
      }
    }
    return None;
  }

  /* ------------------------------------------------------ position diversity */

  /** The horizontal centre of a box. */
  function CenterX(b: Box): real
  {
    (b.startX + b.endX) / 2.0
  }

  /** The vertical centre of a box. */
  function CenterY(b: Box): real
  {
    (b.startY + b.endY) / 2.0
  }

  /** `dx ** 2 + dy ** 2`. */
  function SquaredNorm(dx: real, dy: real): (r: real)
    ensures r >= 0.0
  {
    SquareNonNegative(dx);
    SquareNonNegative(dy);
    dx * dx + dy * dy
  }

  /** The squared distance between two box centres. */
  function SquaredDistance(a: Box, b: Box): (r: real)
    ensures r >= 0.0
  {
    SquaredNorm(CenterX(a) - CenterX(b), CenterY(a) - CenterY(b))
  }

  lemma SquareNonNegative(x: real)
    ensures x * x >= 0.0
  {
    if x < 0.0 {
      MulPositive(-x, -x);
    } else if x > 0.0 {
      MulPositive(x, x);
    }
  }

  /** `** 0.5` is given as `root`; the lemmas that need it require it to be non-negative on non-negative arguments. */
  ghost predicate NonNegativeRoot(root: real -> real)
  {
    forall x: real :: 0.0 <= x ==> 0.0 <= root(x)
  }

  /** The distance between two box centres. */
  function Distance(a: Box, b: Box, root: real -> real): real
  {
    root(SquaredDistance(a, b))
  }

  /** The least distance from the centre of b to the centre of a selected box. */
  function MinDistance(b: Box, selected: seq<Candidate>, root: real -> real): (r: real)
    requires selected != []
    ensures forall k :: 0 <= k < |selected| ==> r <= Distance(b, selected[k].box, root)
    ensures exists k :: 0 <= k < |selected| && r == Distance(b, selected[k].box, root)
  {
    if |selected| == 1 then Distance(b, selected[0].box, root)
    else
      var init := selected[..|selected| - 1];
      assert forall k :: 0 <= k < |init| ==> init[k] == selected[k];
      Min(MinDistance(b, init, root), Distance(b, selected[|selected| - 1].box, root))
  }

  /** `calculate_position_diversity_score`: 1 with nothing selected, else the least distance over 100, capped at 1. */
  function Diversity(b: Box, selected: seq<Candidate>, root: real -> real): (r: real)
    ensures r <= 1.0
  {
    if selected == [] then 1.0 else Min(1.0, MinDistance(b, selected, root) / 100.0)
  }

  /** The diversity lies in [0, 1]. */
  lemma DiversityRange(b: Box, selected: seq<Candidate>, root: real -> real)
    requires NonNegativeRoot(root)
    ensures 0.0 <= Diversity(b, selected, root) <= 1.0
  {
    if selected != [] {
      var k :| 0 <= k < |selected| && MinDistance(b, selected, root) == Distance(b, selected[k].box, root);
      assert 0.0 <= SquaredDistance(b, selected[k].box);
    }
  }

  /** The diversity is full exactly when every selected centre is at least 100 away. */
  lemma DiversityFull(b: Box, selected: seq<Candidate>, root: real -> real)
    ensures Diversity(b, selected, root) == 1.0 <==>
            forall k :: 0 <= k < |selected| ==> Distance(b, selected[k].box, root) >= 100.0
  {
    if selected != [] {
      var k :| 0 <= k < |selected| && MinDistance(b, selected, root) == Distance(b, selected[k].box, root);
    }
  }

  /** Selecting one more box never raises the diversity of a candidate. */
  lemma DiversityShrinks(b: Box, selected: seq<Candidate>, x: Candidate, root: real -> real)
    ensures Diversity(b, selected + [x], root) <= Diversity(b, selected, root)
  {
    if selected != [] {
      assert (selected + [x])[..|selected|] == selected;
    }
  }

  /** The distance loop of `calculate_position_diversity_score`; `None` stands for `float('inf')`. */
  method PositionDiversityScore(b: Box, selected: seq<Candidate>, root: real -> real) returns (r: real)
    ensures r == Diversity(b, selected, root)
  {
    if selected == [] {
      return 1.0;
    }
    var minDistance: Option<real> := None;
    for k := 0 to |selected|
      invariant k == 0 <==> minDistance.None?
      invariant k > 0 ==> minDistance == Some(MinDistance(b, selected[..k], root))
    {
      var dx := CenterX(b) - CenterX(selected[k].box);
      var dy := CenterY(b) - CenterY(selected[k].box);
      var distance := root(SquaredNorm(dx, dy));
      assert selected[..k + 1][..k] == selected[..k];
      minDistance := Some(if minDistance.None? then distance else Min(minDistance.value, distance));
    }
    assert selected[..|selected|] == selected;
    r := Min(1.0, minDistance.value / 100.0);
  }

  /* ------------------------------------------------------- greedy selection */

  /** `sum(1 for s in selected if s['mod_type'] == kind)`. */
  function TypeCount(selected: seq<Candidate>, kind: EditKind): (r: nat)
    ensures r <= |selected|
  {
    if selected == [] then 0
    else TypeCount(selected[..|selected| - 1], kind) + (if selected[|selected| - 1].kind == kind then 1 else 0)
  }

  /** `1 / (1 + 0.5 * count)`: in (0, 1], 1 for a kind not yet selected. */
  function TypeBalance(count: nat): (r: real)
    ensures 0.0 < r <= 1.0
  {
    DivPositive(1.0, 1.0 + count as real * 0.5);
    DivAtMostOne(1.0, 1.0 + count as real * 0.5);
    1.0 / (1.0 + count as real * 0.5)
  }

  /** Each further selection of a kind lowers its balance score. */
  lemma TypeBalanceDecreasing(c1: nat, c2: nat)
    requires c1 < c2
    ensures TypeBalance(c2) < TypeBalance(c1)
  {
    var d1 := 1.0 + c1 as real * 0.5;
    var d2 := 1.0 + c2 as real * 0.5;
    MulPositive(d1, d2);
    DivPositive(d2 - d1, d1 * d2);
    assert 1.0 / d1 - 1.0 / d2 == (d2 - d1) / (d1 * d2);
  }

  /** The combined score of a candidate against the current selection. */
  function Combined(c: Candidate, selected: seq<Candidate>, root: real -> real): real
  {
    c.score * 0.5 + Diversity(c.box, selected, root) * 30.0 + TypeBalance(TypeCount(selected, c.kind)) * 20.0
  }

  /** The combined scores of all candidates, in order. */
  function CombinedScores(cands: seq<Candidate>, selected: seq<Candidate>, root: real -> real): (r: seq<real>)
    ensures |r| == |cands|
    ensures forall k :: 0 <= k < |cands| ==> r[k] == Combined(cands[k], selected, root)
  {
    seq(|cands|, k requires 0 <= k < |cands| => Combined(cands[k], selected, root))
  }

  /**
   * The scan with `best_score = -1` and a strict `>`: the first index of
   * the greatest value, provided that value exceeds -1.
   */
  function FirstBest(xs: seq<real>): (r: Option<nat>)
    ensures r.Some? ==> r.value < |xs| && xs[r.value] > -1.0
    ensures r.Some? ==> forall j :: 0 <= j < |xs| ==> xs[j] <= xs[r.value]
    ensures r.Some? ==> forall j :: 0 <= j < r.value ==> xs[j] < xs[r.value]
    ensures r.None? <==> forall j :: 0 <= j < |xs| ==> xs[j] <= -1.0
  {
    if xs == [] then None
    else
      var b := FirstBest(xs[..|xs| - 1]);
      assert forall j :: 0 <= j < |xs| - 1 ==> xs[..|xs| - 1][j] == xs[j];
      if xs[|xs| - 1] > (if b.None? then -1.0 else xs[b.value]) then Some(|xs| - 1) else b
  }

  /** The candidate the inner loop of `enhanced_bbox_selection` settles on. */
  function Best(cands: seq<Candidate>, selected: seq<Candidate>, root: real -> real): (r: Option<nat>)
    ensures r.Some? ==> r.value < |cands|
  {
    FirstBest(CombinedScores(cands, selected, root))
  }

  /** `list.remove`: drop the first element equal to x. */
  function RemoveFirst(s: seq<Candidate>, x: Candidate): (r: seq<Candidate>)
    requires x in s
    ensures |r| == |s| - 1
    ensures multiset(r) == multiset(s) - multiset{x}
  {
    assert s == [s[0]] + s[1..];
    if s[0] == x then s[1..] else [s[0]] + RemoveFirst(s[1..], x)
  }

  /** Removing the value at i drops position i itself when no earlier element equals it. */
  lemma {:induction false} RemoveFirstAt(s: seq<Candidate>, i: nat)
    requires i < |s|
    requires forall j :: 0 <= j < i ==> s[j] != s[i]
    ensures RemoveFirst(s, s[i]) == s[..i] + s[i + 1..]
  {
    if i > 0 {
      var t := s[1..];
      assert t[i - 1] == s[i];
      RemoveFirstAt(t, i - 1);
      assert s[..i] + s[i + 1..] == [s[0]] + (t[..i - 1] + t[i..]);
    }
  }

  /**
   * The best candidate is removed from its own position: an earlier equal
   * candidate would have had the same combined score and been chosen first.
   */
  lemma RemoveBest(cands: seq<Candidate>, selected: seq<Candidate>, root: real -> real)
    requires Best(cands, selected, root).Some?
    ensures var i := Best(cands, selected, root).value;
            RemoveFirst(cands, cands[i]) == cands[..i] + cands[i + 1..]
  {
    var i := Best(cands, selected, root).value;
    var xs := CombinedScores(cands, selected, root);
    forall j | 0 <= j < i ensures cands[j] != cands[i] {
      assert xs[j] < xs[i];
    }
    RemoveFirstAt(cands, i);
  }

  /** The greedy loop of `enhanced_bbox_selection`, from a current selection and the remaining candidates. */
  function Greedy(cands: seq<Candidate>, selected: seq<Candidate>, maxCount: nat, root: real -> real): seq<Candidate>
    decreases |cands|
  {
    if |selected| >= maxCount || cands == [] then selected
    else
      match Best(cands, selected, root)
      case None => selected
      case Some(i) => Greedy(RemoveFirst(cands, cands[i]), selected + [cands[i]], maxCount, root)
  }

  /**
   * The loop only appends: it keeps the current selection as a prefix,
   * never exceeds `max_count` from below, and picks every candidate at most
   * as often as it is offered.
   */
  lemma {:induction false} GreedyPicks(cands: seq<Candidate>, selected: seq<Candidate>, maxCount: nat, root: real -> real)
    ensures var r := Greedy(cands, selected, maxCount, root);
            |selected| <= |r| && r[..|selected|] == selected
            && (|selected| <= maxCount ==> |r| <= maxCount)
            && multiset(r[|selected|..]) <= multiset(cands)
    decreases |cands|
  {
    var r := Greedy(cands, selected, maxCount, root);
    if |selected| >= maxCount || cands == [] || Best(cands, selected, root).None? {
      assert r == selected;
    } else {
      var i := Best(cands, selected, root).value;
      var rest := RemoveFirst(cands, cands[i]);
      var next := selected + [cands[i]];
      GreedyPicks(rest, next, maxCount, root);
      PickStep(r, selected, cands[i], cands, rest);
    }
  }

  /** One greedy step: a run that extends `selected + [x]` by picks from `rest` extends `selected` by picks from `pool`. */
  lemma PickStep(r: seq<Candidate>, selected: seq<Candidate>, x: Candidate, pool: seq<Candidate>, rest: seq<Candidate>)
    requires |selected + [x]| <= |r| && r[..|selected| + 1] == selected + [x]
    requires x in pool && multiset(rest) == multiset(pool) - multiset{x}
    requires multiset(r[|selected| + 1..]) <= multiset(rest)
    ensures r[..|selected|] == selected
    ensures multiset(r[|selected|..]) <= multiset(pool)
  {
    assert r[..|selected|] == r[..|selected| + 1][..|selected|];
    assert r[|selected|..] == [x] + r[|selected| + 1..];
  }

  /** With non-negative scores every combined score exceeds -1, so a candidate is always found. */
  lemma CombinedAboveFloor(c: Candidate, selected: seq<Candidate>, root: real -> real)
    requires NonNegativeRoot(root) && c.score >= 0.0
    ensures Combined(c, selected, root) > -1.0
  {
    DiversityRange(c.box, selected, root);
  }

  /**
   * With non-negative scores the loop stops only at `max_count` or when the
   * candidates run out: it selects exactly min(max_count, |candidates|).
   */
  lemma {:induction false} GreedyComplete(cands: seq<Candidate>, selected: seq<Candidate>, maxCount: nat, root: real -> real)
    requires NonNegativeRoot(root)
    requires forall c :: c in cands ==> c.score >= 0.0
    requires |selected| <= maxCount
    ensures |Greedy(cands, selected, maxCount, root)| ==
            |selected| + (if maxCount - |selected| <= |cands| then maxCount - |selected| else |cands|)
    decreases |cands|
  {
    if |selected| < maxCount && cands != [] {
      var xs := CombinedScores(cands, selected, root);
      CombinedAboveFloor(cands[0], selected, root);
      assert xs[0] > -1.0;
      var i := Best(cands, selected, root).value;
      var rest := RemoveFirst(cands, cands[i]);
      forall c | c in rest ensures c.score >= 0.0 {
        assert c in multiset(rest);
      }
      GreedyComplete(rest, selected + [cands[i]], maxCount, root);
    }
  }

  /**
   * With nothing selected every candidate has full diversity and balance,
   * so the first pick is the earliest candidate of greatest error score.
   */
  lemma GreedyFirstPick(cands: seq<Candidate>, maxCount: nat, root: real -> real)
    requires cands != [] && maxCount > 0
    requires forall c :: c in cands ==> c.score >= 0.0
    ensures Greedy(cands, [], maxCount, root) != []
    ensures Greedy(cands, [], maxCount, root)[0] == cands[FirstMaxIndex(cands, ScoreKey)]
  {
    var xs := CombinedScores(cands, [], root);
    var m := FirstMaxIndex(cands, ScoreKey);
    forall k | 0 <= k < |cands| ensures xs[k] == cands[k].score * 0.5 + 50.0 {
      CombinedWithNone(cands[k], root);
    }
    assert xs[0] > -1.0;
    var i := Best(cands, [], root).value;
    assert i == m;
    var rest := RemoveFirst(cands, cands[i]);
    var r := Greedy(cands, [], maxCount, root);
    assert Best(cands, [], root) == Some(i);
    assert [] + [cands[i]] == [cands[i]];
    assert r == Greedy(rest, [cands[i]], maxCount, root);
    GreedyPicks(rest, [cands[i]], maxCount, root);
    assert r[0] == r[..1][0];
  }

  /** Against an empty selection the combined score is half the error score plus 50. */
  lemma CombinedWithNone(c: Candidate, root: real -> real)
    ensures Combined(c, [], root) == c.score * 0.5 + 50.0
  {
  }

  /** The combined score of one candidate: half its error score, 30 times its diversity, 20 times its type balance. */
  method CombinedScore(candidate: Candidate, selected: seq<Candidate>, root: real -> real) returns (r: real)
    ensures r == Combined(candidate, selected, root)
  {
    var diversityScore := PositionDiversityScore(candidate.box, selected, root);
    var typeCount := TypeCount(selected, candidate.kind);
    var typeBalanceScore := TypeBalance(typeCount);
    r := candidate.score * 0.5 + diversityScore * 30.0 + typeBalanceScore * 20.0;
  }

  /** The inner loop of `enhanced_bbox_selection`: score every candidate and keep the first strictly better one. */
  method BestCandidate(candidates: seq<Candidate>, selected: seq<Candidate>, root: real -> real) returns (best: Option<nat>)
    ensures best == Best(candidates, selected, root)
  {
    ghost var xs := CombinedScores(candidates, selected, root);
    best := None;
    var bestScore := -1.0;
    for k := 0 to |candidates|
      invariant best == FirstBest(xs[..k])
      invariant bestScore == (if best.None? then -1.0 else xs[best.value])
    {
      var combinedScore := CombinedScore(candidates[k], selected, root);
      FirstBestSnoc(xs, k);
      if combinedScore > bestScore {
        bestScore := combinedScore;
        best := Some(k);
      }
    }
    assert xs[..|candidates|] == xs;
  }

  /** One more step of the scan: a strictly greater value takes over. */
  lemma FirstBestSnoc(xs: seq<real>, k: nat)
    requires k < |xs|
    ensures FirstBest(xs[..k + 1]) ==
              var b := FirstBest(xs[..k]);
              if xs[k] > (if b.None? then -1.0 else xs[b.value]) then Some(k) else b
  {
    assert xs[..k + 1][..k] == xs[..k];
  }

  /** The sum of the error scores, added left to right. */
  function SumScores(s: seq<Candidate>): real
  {
    if s == [] then 0.0 else SumScores(s[..|s| - 1]) + s[|s| - 1].score
  }

  /** `max(40, 0.6 * mean)` over the error scores. */
  function Threshold(all: seq<Candidate>): real
    requires all != []
  {
    Max(40.0, SumScores(all) / (|all| as real) * 0.6)
  }

  /** `[b for b in all if b['error_score'] >= threshold]`. */
  function AboveThreshold(all: seq<Candidate>, threshold: real): (r: seq<Candidate>)
    ensures forall c :: c in r <==> c in all && c.score >= threshold
    ensures multiset(r) <= multiset(all)
  {
    if all == [] then []
    else
      var init := all[..|all| - 1];
      var last := all[|all| - 1];
      assert all == init + [last];
      AboveThreshold(init, threshold) + (if last.score >= threshold then [last] else [])
  }

  /** The quality filter, falling back to the first `max_count` candidates when nothing passes. */
  function QualityFiltered(all: seq<Candidate>, maxCount: nat): (r: seq<Candidate>)
    requires all != []
    ensures multiset(r) <= multiset(all)
    ensures (exists k :: 0 <= k < |all| && all[k].score >= Threshold(all))
            ==> forall c :: c in r <==> c in all && c.score >= Threshold(all)
    ensures (forall k :: 0 <= k < |all| ==> all[k].score < Threshold(all))
            ==> r == all[..if maxCount <= |all| then maxCount else |all|]
  {
    var threshold := Threshold(all);
    var filtered := AboveThreshold(all, threshold);
    AboveThresholdEmpty(all, threshold);
    if filtered == [] then
      var n := if maxCount <= |all| then maxCount else |all|;
      assert all == all[..n] + all[n..];
      all[..n]
    else filtered
  }

  /** The filtered list is empty exactly when no score reaches the threshold. */
  lemma AboveThresholdEmpty(all: seq<Candidate>, threshold: real)
    ensures AboveThreshold(all, threshold) == [] <==> forall k :: 0 <= k < |all| ==> all[k].score < threshold
  {
    if AboveThreshold(all, threshold) == [] {
      forall k | 0 <= k < |all| ensures all[k].score < threshold {
        assert all[k] in all;
      }
    } else {
      var c := AboveThreshold(all, threshold)[0];
      assert c in AboveThreshold(all, threshold);
    }
  }

  /** What `enhanced_bbox_selection` returns. */
  function Enhanced(all: seq<Candidate>, maxCount: nat, root: real -> real): seq<Candidate>
  {
    if all == [] then [] else Greedy(QualityFiltered(all, maxCount), [], maxCount, root)
  }

  /** A sum of scores is at most the count times any bound on them. */
  lemma {:induction false} SumAtMost(s: seq<Candidate>, bound: real)
    requires forall c :: c in s ==> c.score <= bound
    ensures SumScores(s) <= |s| as real * bound
  {
    if s != [] {
      assert forall c :: c in s[..|s| - 1] ==> c in s;
      SumAtMost(s[..|s| - 1], bound);
      assert s[|s| - 1] in s;
    }
  }

  /** The threshold never exceeds the top score once that reaches 40: the mean is at most the top score. */
  lemma TopPassesFilter(all: seq<Candidate>)
    requires all != []
    requires all[FirstMaxIndex(all, ScoreKey)].score >= 40.0
    ensures all[FirstMaxIndex(all, ScoreKey)] in AboveThreshold(all, Threshold(all))
  {
    var top := all[FirstMaxIndex(all, ScoreKey)].score;
    TopBoundsAll(all);
    ThresholdAtMost(all, top);
  }

  /** The threshold is at most any bound of at least 40 on the scores. */
  lemma ThresholdAtMost(all: seq<Candidate>, top: real)
    requires all != [] && top >= 40.0
    requires forall c :: c in all ==> c.score <= top
    ensures Threshold(all) <= top
  {
    SumAtMost(all, top);
    MeanAtMost(SumScores(all), |all| as real, top);
  }

  /** The top score bounds every score. */
  lemma TopBoundsAll(all: seq<Candidate>)
    requires all != []
    ensures forall c :: c in all ==> c.score <= all[FirstMaxIndex(all, ScoreKey)].score
  {
    forall c | c in all ensures c.score <= all[FirstMaxIndex(all, ScoreKey)].score {
      var k :| 0 <= k < |all| && all[k] == c;
    }
  }

  /** A mean of values bounded by t is at most t. */
  lemma MeanAtMost(sum: real, n: real, t: real)
    requires n > 0.0 && sum <= n * t
    ensures sum / n <= t
  {
  }

  /**
   * `enhanced_bbox_selection` returns at most `max_count` boxes, each offered
   * once at most, and nothing for no input.
   */
  lemma EnhancedBounds(all: seq<Candidate>, maxCount: nat, root: real -> real)
    ensures |Enhanced(all, maxCount, root)| <= maxCount
    ensures multiset(Enhanced(all, maxCount, root)) <= multiset(all)
    ensures all == [] ==> Enhanced(all, maxCount, root) == []
  {
    if all != [] {
      var pool := QualityFiltered(all, maxCount);
      GreedyPicks(pool, [], maxCount, root);
      var r := Enhanced(all, maxCount, root);
      assert r[0..] == r;
    }
  }

  /**
   * When every score is non-negative and the top score reaches 40,
   * `enhanced_bbox_selection` starts with a box of the top score.
   */
  lemma EnhancedStartsWithTop(all: seq<Candidate>, maxCount: nat, root: real -> real)
    requires all != [] && maxCount > 0
    requires forall c :: c in all ==> c.score >= 0.0
    requires all[FirstMaxIndex(all, ScoreKey)].score >= 40.0
    ensures Enhanced(all, maxCount, root) != []
    ensures Enhanced(all, maxCount, root)[0].score == all[FirstMaxIndex(all, ScoreKey)].score
  {
    var pool := QualityFiltered(all, maxCount);
    var m := all[FirstMaxIndex(all, ScoreKey)];
    TopSurvivesQuality(all, maxCount);
    PoolBounded(all, pool, m.score);
    GreedyFirstPick(pool, maxCount, root);
    SameTop(pool, m);
  }

  /** A box of the top score passes the quality filter. */
  lemma TopSurvivesQuality(all: seq<Candidate>, maxCount: nat)
    requires all != [] && all[FirstMaxIndex(all, ScoreKey)].score >= 40.0
    ensures all[FirstMaxIndex(all, ScoreKey)] in QualityFiltered(all, maxCount)
  {
    TopPassesFilter(all);
  }

  /** Scores drawn from a non-negative input bounded by its top stay within those bounds. */
  lemma PoolBounded(all: seq<Candidate>, pool: seq<Candidate>, top: real)
    requires all != [] && top == all[FirstMaxIndex(all, ScoreKey)].score
    requires forall c :: c in all ==> c.score >= 0.0
    requires multiset(pool) <= multiset(all)
    ensures forall c :: c in pool ==> 0.0 <= c.score <= top
  {
    TopBoundsAll(all);
    forall c | c in pool ensures c in all {
      assert c in multiset(pool);
    }
  }

  /** A pool holding a box whose score bounds every score has that score at its first maximum. */
  lemma SameTop(pool: seq<Candidate>, m: Candidate)
    requires m in pool
    requires forall c :: c in pool ==> c.score <= m.score
    ensures pool[FirstMaxIndex(pool, ScoreKey)].score == m.score
  {
    var j :| 0 <= j < |pool| && pool[j] == m;
    assert pool[FirstMaxIndex(pool, ScoreKey)] in pool;
  }

  /** One round of the greedy loop: the pick joins the selection and leaves the candidates. */
  lemma GreedyStep(cands: seq<Candidate>, selected: seq<Candidate>, maxCount: nat, root: real -> real, i: nat)
    requires |selected| < maxCount && cands != [] && Best(cands, selected, root) == Some(i)
    ensures i < |cands|
    ensures Greedy(cands, selected, maxCount, root)
         == Greedy(RemoveFirst(cands, cands[i]), selected + [cands[i]], maxCount, root)
  {
  }

  /** The quality filter of `enhanced_bbox_selection`: mean, threshold, filter, fallback. */
  method QualityFilter(all: seq<Candidate>, maxCount: nat) returns (qualityFiltered: seq<Candidate>)
    requires all != []
    ensures qualityFiltered == QualityFiltered(all, maxCount)
  {
    var meanScore := SumScores(all) / (|all| as real);
    var minThreshold := Max(40.0, meanScore * 0.6);
    assert minThreshold == Threshold(all);
    qualityFiltered := AboveThreshold(all, minThreshold);
    if qualityFiltered == [] {
      qualityFiltered := all[..if maxCount <= |all| then maxCount else |all|];
    }
  }

  /** `enhanced_bbox_selection`: the quality filter, then the greedy loop that removes each pick from the candidates. */
  method EnhancedBboxSelection(all: seq<Candidate>, maxCount: nat, root: real -> real) returns (selected: seq<Candidate>)
    ensures selected == Enhanced(all, maxCount, root)
  {
    if all == [] {
      return [];
    }
    var candidates := QualityFilter(all, maxCount);
    ghost var target := Greedy(candidates, [], maxCount, root);
    selected := [];
    while |selected| < maxCount && candidates != []
      invariant Greedy(candidates, selected, maxCount, root) == target
      decreases |candidates|
    {
      var best := BestCandidate(candidates, selected, root);
      if best.None? {
        break;
      }
      GreedyStep(candidates, selected, maxCount, root, best.value);
      var bestCandidate := candidates[best.value];
      selected := selected + [bestCandidate];
      candidates := RemoveFirst(candidates, bestCandidate);
    }
  }

  /* ------------------------------------------------------------ pipeline */

  /** The draws of every item: `jitter(n)` holds those of the n-th correction item. */
  ghost predicate UniformDraws(jitter: nat -> nat -> real)
  {
    forall n: nat :: Uniform(jitter(n))
  }

  /**
   * The box record `c` comes from the edit record `m` of sentence `id`: same
   * score, characters and kind, `char_pos` is the record's position, and its
   * box is that of the entry `NearIndex` finds for `m`.
   */
  predicate LocatedFrom(c: Candidate, m: Modified, chars: seq<CharInfo>, id: int)
  {
    c.score == m.score && c.original == m.original && c.corrected == m.corrected && c.kind == m.kind
    && c.sentenceId == id && c.charPos == Some(m.pos)
    && NearIndex(chars, m.pos, m.original).Some?
    && c.box == GetCharBbox(chars[NearIndex(chars, m.pos, m.original).value])
  }

  /**
   * The box records of one sentence's edit records, in record order: each
   * record is resolved with `NearIndex` and skipped when that fails. Every
   * box belongs to a character entry holding the record's source character
   * within 3 positions of the record's position, which it keeps as `char_pos`;
   * it carries the record's score, characters and kind, and a record
   * resolved by `NearIndex` always yields its box.
   */
  function Located(ms: seq<Modified>, chars: seq<CharInfo>, id: int): (r: seq<Candidate>)
    ensures |r| <= |ms|
    ensures forall c :: c in r ==>
              c.sentenceId == id && c.charPos.Some?
              && exists i :: 0 <= i < |chars| && chars[i].ch == [c.original] && c.box == GetCharBbox(chars[i])
                             && c.charPos.value <= i + 3 && i <= c.charPos.value + 3
    ensures forall c :: c in r ==>
              exists k :: 0 <= k < |ms| && LocatedFrom(c, ms[k], chars, id)
    ensures forall k :: 0 <= k < |ms| && NearIndex(chars, ms[k].pos, ms[k].original).Some? ==>
              Candidate(GetCharBbox(chars[NearIndex(chars, ms[k].pos, ms[k].original).value]), ms[k].score,
                        ms[k].original, ms[k].corrected, ms[k].kind, id, Some(ms[k].pos)) in r
  {
    if ms == [] then []
    else
      var m := ms[|ms| - 1];
      assert forall k :: 0 <= k < |ms| - 1 ==> ms[..|ms| - 1][k] == ms[k];
      Located(ms[..|ms| - 1], chars, id) +
      match NearIndex(chars, m.pos, m.original)
      case None => []
      case Some(i) => [Candidate(GetCharBbox(chars[i]), m.score, m.original, m.corrected, m.kind, id, Some(m.pos))]
  }

  /** Resolution keeps the records' scores, so a floor on them carries over to the boxes. */
  lemma {:induction false} LocatedScores(ms: seq<Modified>, chars: seq<CharInfo>, id: int, floor: real)
    requires forall m :: m in ms ==> m.score >= floor
    ensures forall c :: c in Located(ms, chars, id) ==> c.score >= floor
  {
    if ms != [] {
      assert forall m :: m in ms[..|ms| - 1] ==> m in ms;
      LocatedScores(ms[..|ms| - 1], chars, id, floor);
      assert ms[|ms| - 1] in ms;
    }
  }

  /** The box records one correction item contributes: none without a sentence id or a non-empty matching sentence. */
  function ItemCandidates(item: CorrectionItem, draws: nat -> real, sentences: seq<Sentence>): seq<Candidate>
    requires AllInRange(item.ops, item.source, item.predict) && Uniform(draws)
  {
    match item.sentenceId
    case None => []
    case Some(id) =>
      match SentenceChars(sentences, id)
      case None => []
      case Some(chars) =>
        if chars == [] then [] else Located(ModifiedChars(item.ops, item.source, item.predict, draws), chars, id)
  }

  /** The box records of all items, in item order. */
  function Collected(items: seq<CorrectionItem>, sentences: seq<Sentence>, jitter: nat -> nat -> real): seq<Candidate>
    requires forall k :: 0 <= k < |items| ==> AllInRange(items[k].ops, items[k].source, items[k].predict)
    requires UniformDraws(jitter)
  {
    if items == [] then []
    else Collected(items[..|items| - 1], sentences, jitter) + ItemCandidates(items[|items| - 1], jitter(|items| - 1), sentences)
  }

  /** The resolution loop over one sentence's records. */
  method LocateRecords(modified: seq<Modified>, chars: seq<CharInfo>, id: int) returns (found: seq<Candidate>)
    ensures found == Located(modified, chars, id)
  {
    found := [];
    for n := 0 to |modified|
      invariant found == Located(modified[..n], chars, id)
    {
      var m := modified[n];
      var info := FindCharBbox(chars, m.pos, m.original);
      assert modified[..n + 1][..n] == modified[..n];
      if info.Some? {
        found := found + [Candidate(GetCharBbox(info.value), m.score, m.original, m.corrected, m.kind, id, Some(m.pos))];
      }
    }
    assert modified[..|modified|] == modified;
  }

  /** One pass of the collection loop: the item's edit records, then, given a sentence id and a non-empty sentence, their boxes. */
  method CollectItem(item: CorrectionItem, draws: nat -> real, sentences: seq<Sentence>) returns (found: seq<Candidate>)
    requires WellFormed(item.ops, item.source, item.predict) && Uniform(draws)
    ensures AllInRange(item.ops, item.source, item.predict)
    ensures found == ItemCandidates(item, draws, sentences)
  {
    var modified := FindModifiedChars(item.source, item.predict, item.ops, draws);
    found := [];
    if item.sentenceId.Some? {
      var id := item.sentenceId.value;
      var chars := FindSentence(sentences, id);
      if chars.Some? && chars.value != [] {
        found := LocateRecords(modified, chars.value, id);
      }
    }
  }

  /** Extending the items extends the collected records by the new item's records. */
  lemma CollectedSnoc(items: seq<CorrectionItem>, n: nat, sentences: seq<Sentence>, jitter: nat -> nat -> real)
    requires n < |items| && UniformDraws(jitter)
    requires forall k :: 0 <= k < |items| ==> AllInRange(items[k].ops, items[k].source, items[k].predict)
    ensures Collected(items[..n + 1], sentences, jitter)
         == Collected(items[..n], sentences, jitter) + ItemCandidates(items[n], jitter(n), sentences)
  {
    assert items[..n + 1][..n] == items[..n];
  }

  /** The collection loop of `process_corrected_file` over the correction items. */
  method CollectCandidates(items: seq<CorrectionItem>, sentences: seq<Sentence>, jitter: nat -> nat -> real)
    returns (predicted: seq<string>, all: seq<Candidate>)
    requires ItemsWellFormed(items) && UniformDraws(jitter)
    ensures forall k :: 0 <= k < |items| ==> AllInRange(items[k].ops, items[k].source, items[k].predict)
    ensures predicted == Predicts(items)
    ensures all == Collected(items, sentences, jitter)
  {
    ItemsInRange(items);
    predicted := [];
    all := [];
    for n := 0 to |items|
      invariant predicted == Predicts(items[..n])
      invariant all == Collected(items[..n], sentences, jitter)
    {
      var item := items[n];
      PredictsSnoc(items, n);
      predicted := predicted + [item.predict];
      var found := CollectItem(item, jitter(n), sentences);
      CollectedSnoc(items, n, sentences, jitter);
      all := all + found;
    }
    assert items[..|items|] == items;
  }

  /** Every collected box scores at least 48: inserts score 65 or more, every other record 48 or more. */
  lemma {:induction false} CollectedScores(items: seq<CorrectionItem>, sentences: seq<Sentence>, jitter: nat -> nat -> real)
    requires ItemsWellFormed(items) && UniformDraws(jitter)
    ensures forall k :: 0 <= k < |items| ==> AllInRange(items[k].ops, items[k].source, items[k].predict)
    ensures forall c :: c in Collected(items, sentences, jitter) ==> c.score >= 48.0
  {
    ItemsInRange(items);
    if items != [] {
      var n := |items| - 1;
      var init := items[..n];
      assert ItemsWellFormed(init) by {
        forall k | 0 <= k < |init| ensures WellFormed(init[k].ops, init[k].source, init[k].predict) {
          assert init[k] == items[k];
        }
      }
      CollectedScores(init, sentences, jitter);
      ItemScores(items[n], jitter(n), sentences);
    }
  }

  /** The boxes of one item score at least 48. */
  lemma ItemScores(item: CorrectionItem, draws: nat -> real, sentences: seq<Sentence>)
    requires WellFormed(item.ops, item.source, item.predict) && Uniform(draws)
    ensures AllInRange(item.ops, item.source, item.predict)
    ensures forall c :: c in ItemCandidates(item, draws, sentences) ==> c.score >= 48.0
  {
    ModifiedCharsFacts(item.ops, item.source, item.predict, draws);
    if item.sentenceId.Some? {
      var chars := SentenceChars(sentences, item.sentenceId.value);
      if chars.Some? {
        LocatedScores(ModifiedChars(item.ops, item.source, item.predict, draws), chars.value, item.sentenceId.value, 48.0);
      }
    }
  }

  /** With non-negative scores the enhanced selection takes exactly min(max_count, |filtered|) boxes. */
  lemma EnhancedCount(all: seq<Candidate>, maxCount: nat, root: real -> real)
    requires all != [] && NonNegativeRoot(root)
    requires forall c :: c in all ==> c.score >= 0.0
    ensures var n := |QualityFiltered(all, maxCount)|;
            |Enhanced(all, maxCount, root)| == if maxCount <= n then maxCount else n
  {
    var pool := QualityFiltered(all, maxCount);
    forall c | c in pool ensures c.score >= 0.0 {
      assert c in multiset(pool);
    }
    GreedyComplete(pool, [], maxCount, root);
  }

  /** `[{start_x, end_x, start_y, end_y} for bbox in selected_bboxes]`. */
  function BoxesOf(selected: seq<Candidate>): (r: seq<Box>)
    ensures |r| == |selected| && forall k :: 0 <= k < |r| ==> r[k] == selected[k].box
  {
    seq(|selected|, k requires 0 <= k < |selected| => selected[k].box)
  }

  /** How many boxes `process_corrected_file` selects. */
  const MaxBoxes: nat := 16

  /**
   * The in-memory part of `process_corrected_file`: the corrected sentences
   * joined by single spaces, and the boxes the enhanced selection picks
   * among the collected records.
   */
  method ProcessCorrectedFile(items: seq<CorrectionItem>, sentences: seq<Sentence>,
                              jitter: nat -> nat -> real, root: real -> real) returns (text: string, boxes: seq<Box>)
    requires ItemsWellFormed(items) && UniformDraws(jitter)
    ensures forall k :: 0 <= k < |items| ==> AllInRange(items[k].ops, items[k].source, items[k].predict)
    ensures text == Join(Predicts(items), " ")
    ensures boxes == BoxesOf(Enhanced(Collected(items, sentences, jitter), MaxBoxes, root))
    ensures |boxes| <= MaxBoxes
  {
    var predicted, all := CollectCandidates(items, sentences, jitter);
    var selected := EnhancedBboxSelection(all, MaxBoxes, root);
    EnhancedBounds(all, MaxBoxes, root);
    boxes := BoxesOf(selected);
    text := Join(predicted, " ");
  }

  /**
   * What a page yields: when any box is collected, the selection holds
   * min(16, |filtered|) boxes and starts with one of the top score (every
   * collected score is at least 48, above the threshold floor of 40).
   */
  lemma ProcessedSelection(items: seq<CorrectionItem>, sentences: seq<Sentence>, jitter: nat -> nat -> real, root: real -> real)
    requires ItemsWellFormed(items) && UniformDraws(jitter) && NonNegativeRoot(root)
    ensures forall k :: 0 <= k < |items| ==> AllInRange(items[k].ops, items[k].source, items[k].predict)
    ensures var all := Collected(items, sentences, jitter);
            all != [] ==>
              var n := |QualityFiltered(all, MaxBoxes)|;
              var picked := Enhanced(all, MaxBoxes, root);
              |picked| == (if MaxBoxes <= n then MaxBoxes else n)
              && picked[0].score == all[FirstMaxIndex(all, ScoreKey)].score
  {
    CollectedScores(items, sentences, jitter);
    var all := Collected(items, sentences, jitter);
    if all != [] {
      assert all[FirstMaxIndex(all, ScoreKey)] in all;
      EnhancedCount(all, MaxBoxes, root);
      EnhancedStartsWithTop(all, MaxBoxes, root);
    }
  }
}

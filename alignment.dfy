/**
 * From difflib opcodes to per-character edit records. The opcodes come from
 * `SequenceMatcher(None, source, target).get_opcodes()`, which is not part of
 * this model: they are an input that tiles both strings.
 */
module Alignment {
  import opened Options

  datatype Tag = Equal | Replace | Delete | Insert

  /** One `get_opcodes()` entry `(tag, i1, i2, j1, j2)`. */
  datatype Opcode = Opcode(tag: Tag, i1: nat, i2: nat, j1: nat, j2: nat)

  /** The opcode's ranges lie inside the two strings. */
  predicate InRange(op: Opcode, source: string, target: string)
  {
    op.i1 <= op.i2 <= |source| && op.j1 <= op.j2 <= |target|
  }

  predicate AllInRange(ops: seq<Opcode>, source: string, target: string)
  {
    forall k :: 0 <= k < |ops| ==> InRange(ops[k], source, target)
  }

  /** The shape each tag has in difflib's output. */
  predicate TagShape(op: Opcode, source: string, target: string)
    requires InRange(op, source, target)
  {
    match op.tag
    case Equal => op.i2 - op.i1 == op.j2 - op.j1 && source[op.i1..op.i2] == target[op.j1..op.j2]
    case Replace => op.i1 < op.i2 && op.j1 < op.j2
    case Delete => op.i1 < op.i2 && op.j1 == op.j2
    case Insert => op.i1 == op.i2 && op.j1 < op.j2
  }

  /** The opcodes tile source[..i] and target[..j] left to right without gaps. */
  ghost predicate TilesUpTo(ops: seq<Opcode>, source: string, target: string, i: nat, j: nat)
    decreases |ops|
  {
    if ops == [] then i == 0 && j == 0
    else
      var op := ops[|ops| - 1];
      && op.i2 == i && op.j2 == j
      && InRange(op, source, target) && TagShape(op, source, target)
      && TilesUpTo(ops[..|ops| - 1], source, target, op.i1, op.j1)
  }

  /** What `get_opcodes()` guarantees: the opcodes tile both strings completely. */
  ghost predicate WellFormed(ops: seq<Opcode>, source: string, target: string)
  {
    TilesUpTo(ops, source, target, |source|, |target|)
  }

  lemma {:induction false} TilesInRange(ops: seq<Opcode>, source: string, target: string, i: nat, j: nat)
    requires TilesUpTo(ops, source, target, i, j)
    ensures AllInRange(ops, source, target)
    decreases |ops|
  {
    if ops != [] {
      TilesInRange(ops[..|ops| - 1], source, target, ops[|ops| - 1].i1, ops[|ops| - 1].j1);
    }
  }

  datatype EditKind = ReplaceEdit | DeleteEdit | InsertEdit

  /**
   * An edit before scoring: the source position, the source character there
   * and the replacement text (for an insert, the inserted text; the position
   * is then that of the context character).
   */
  datatype EditOp = EditOp(kind: EditKind, pos: nat, original: char, text: string)

  /** The context character of an insert at i1: the one before it, else the one after it, else none. */
  function InsertAnchor(i1: nat, sourceLength: nat): (r: Option<nat>)
    requires i1 <= sourceLength
    ensures r.Some? ==> r.value < sourceLength
    ensures r.None? <==> sourceLength == 0
  {
    if i1 > 0 then Some(i1 - 1)
    else if i1 < sourceLength then Some(i1)
    else None
  }

  /**
   * The records one opcode yields. A replace yields one record per source
   * index of its range, in ascending order, pairing source[i1+k] with
   * target[j1+k] while the target range lasts and with "" after it; target
   * characters beyond the source range are dropped. A delete yields one
   * record per source index with "". An insert yields one record at its
   * context character, when there is one, carrying the inserted text.
   */
  function OpcodeEdits(op: Opcode, source: string, target: string): (r: seq<EditOp>)
    requires InRange(op, source, target)
    ensures forall n :: 0 <= n < |r| ==> r[n].pos < |source| && r[n].original == source[r[n].pos]
  {
    match op.tag
    case Equal => []
    case Replace =>
      seq(op.i2 - op.i1, k requires 0 <= k < op.i2 - op.i1 =>
        EditOp(ReplaceEdit, op.i1 + k, source[op.i1 + k],
               if op.j1 + k < op.j2 then [target[op.j1 + k]] else []))
    case Delete =>
      seq(op.i2 - op.i1, k requires 0 <= k < op.i2 - op.i1 =>
        EditOp(DeleteEdit, op.i1 + k, source[op.i1 + k], []))
    case Insert =>
      match InsertAnchor(op.i1, |source|)
      case None => []
      case Some(p) => [EditOp(InsertEdit, p, source[p], target[op.j1..op.j2])]
  }

  /** The k-th record of a replace opcode. */
  lemma ReplaceEditAt(op: Opcode, source: string, target: string, k: nat)
    requires InRange(op, source, target) && op.tag == Replace && k < op.i2 - op.i1
    ensures op.i1 + k < |source|
    ensures OpcodeEdits(op, source, target)[k] ==
      EditOp(ReplaceEdit, op.i1 + k, source[op.i1 + k], if op.j1 + k < op.j2 then [target[op.j1 + k]] else [])
  {
  }

  /** The k-th record of a delete opcode. */
  lemma DeleteEditAt(op: Opcode, source: string, target: string, k: nat)
    requires InRange(op, source, target) && op.tag == Delete && k < op.i2 - op.i1
    ensures op.i1 + k < |source|
    ensures OpcodeEdits(op, source, target)[k] == EditOp(DeleteEdit, op.i1 + k, source[op.i1 + k], [])
  {
  }

  /** The records of all opcodes, in opcode order. */
  function Align(ops: seq<Opcode>, source: string, target: string): (r: seq<EditOp>)
    requires AllInRange(ops, source, target)
    ensures forall n :: 0 <= n < |r| ==> r[n].pos < |source| && r[n].original == source[r[n].pos]
  {
    if ops == [] then []
    else Align(ops[..|ops| - 1], source, target) + OpcodeEdits(ops[|ops| - 1], source, target)
  }

  /** Records in position order: never decreasing, and strictly increasing between replace/delete records. */
  ghost predicate InPositionOrder(r: seq<EditOp>)
  {
    forall a, b :: 0 <= a < b < |r| ==>
      && r[a].pos <= r[b].pos
      && (r[a].kind != InsertEdit && r[b].kind != InsertEdit ==> r[a].pos < r[b].pos)
  }

  /** Records of opcodes tiling source[..i]: replace/delete ones lie before i, inserts at most at max(i-1, 0). */
  lemma {:induction false} AlignBelow(ops: seq<Opcode>, source: string, target: string, i: nat, j: nat)
    requires TilesUpTo(ops, source, target, i, j)
    ensures AllInRange(ops, source, target)
    ensures forall e :: e in Align(ops, source, target) ==>
      (e.kind != InsertEdit ==> e.pos < i) && (e.pos < i || e.pos == 0)
    decreases |ops|
  {
    TilesInRange(ops, source, target, i, j);
    if ops != [] {
      var op := ops[|ops| - 1];
      AlignBelow(ops[..|ops| - 1], source, target, op.i1, op.j1);
    }
  }

  /** Records of opcodes tiling a prefix come in position order. */
  lemma {:induction false} AlignOrderedUpTo(ops: seq<Opcode>, source: string, target: string, i: nat, j: nat)
    requires TilesUpTo(ops, source, target, i, j)
    ensures AllInRange(ops, source, target)
    ensures InPositionOrder(Align(ops, source, target))
    decreases |ops|
  {
    TilesInRange(ops, source, target, i, j);
    if ops != [] {
      var op := ops[|ops| - 1];
      var pre := ops[..|ops| - 1];
      AlignOrderedUpTo(pre, source, target, op.i1, op.j1);
      AlignBelow(pre, source, target, op.i1, op.j1);
      var p := Align(pre, source, target);
      var e := OpcodeEdits(op, source, target);
      var r := p + e;
      forall a, b | 0 <= a < b < |r|
        ensures r[a].pos <= r[b].pos
        ensures r[a].kind != InsertEdit && r[b].kind != InsertEdit ==> r[a].pos < r[b].pos
      {
        if b < |p| {
          assert r[a] == p[a] && r[b] == p[b];
        } else if a >= |p| {
          assert r[a] == e[a - |p|] && r[b] == e[b - |p|];
        } else {
          assert r[a] == p[a] && r[a] in p;
          assert r[b] == e[b - |p|];
        }
      }
    }
  }

  /** `find_modified_chars` emits records in source-position order. */
  lemma AlignOrdered(ops: seq<Opcode>, source: string, target: string)
    requires WellFormed(ops, source, target)
    ensures AllInRange(ops, source, target)
    ensures InPositionOrder(Align(ops, source, target))
  {
    AlignOrderedUpTo(ops, source, target, |source|, |target|);
  }

  /** An empty source yields no records at all: nothing to replace or delete, and no anchor for an insert. */
  lemma {:induction false} AlignEmptySource(ops: seq<Opcode>, source: string, target: string, j: nat)
    requires source == [] && TilesUpTo(ops, source, target, 0, j)
    ensures AllInRange(ops, source, target)
    ensures Align(ops, source, target) == []
    decreases |ops|
  {
    TilesInRange(ops, source, target, 0, j);
    if ops != [] {
      var op := ops[|ops| - 1];
      AlignEmptySource(ops[..|ops| - 1], source, target, op.j1);
    }
  }

  /** One entry `(pos, original_char, corrected_char, error_score, mod_type)` of `find_modified_chars`. */
  datatype Modified = Modified(pos: nat, original: char, corrected: string, score: real, kind: EditKind)

  /** The scored record of an edit; an insert shows its text as "[+text]". */
  function Record(e: EditOp, score: real): Modified
  {
    Modified(e.pos, e.original, if e.kind == InsertEdit then "[+" + e.text + "]" else e.text, score, e.kind)
  }
}

/**
 * `multi_strategy_bbox_selection` of the second prediction variant: group the
 * candidate boxes by edit kind, take up to a per-kind quota from each group in
 * turn while rejecting boxes that overlap an earlier pick (IoU above 0.8),
 * fill the remaining slots by score with a stricter overlap bound (0.6), and
 * return the picks sorted by score, cut to `max_count`.
 */
module MultiStrategy {
  import opened Geometry
  import opened Sorting
  import opened Alignment
  import opened Documents
  import opened Prediction

  /* ------------------------------------------------------------- grouping */

  /** The keys of `type_groups`, in the order the dictionary first sees them. */
  function Kinds(all: seq<Candidate>): (r: seq<EditKind>)
    ensures forall k :: k in r <==> exists c :: c in all && c.kind == k
    ensures forall i, j :: 0 <= i < j < |r| ==> r[i] != r[j]
  {
    if all == [] then []
    else
      var init := all[..|all| - 1];
      var last := all[|all| - 1];
      assert all == init + [last];
      var r0 := Kinds(init);
      if last.kind in r0 then r0 else r0 + [last.kind]
  }

  /** The boxes of one kind, in input order (a group before sorting). */
  function OfKind(all: seq<Candidate>, k: EditKind): (r: seq<Candidate>)
    ensures forall c :: c in r <==> c in all && c.kind == k
  {
    if all == [] then []
    else
      var init := all[..|all| - 1];
      var last := all[|all| - 1];
      assert all == init + [last];
      OfKind(init, k) + (if last.kind == k then [last] else [])
  }

  /** A group after `sort(key=error_score, reverse=True)`. */
  function Group(all: seq<Candidate>, k: EditKind): (r: seq<Candidate>)
    ensures forall c :: c in r <==> c in all && c.kind == k
    ensures SortedDesc(r, ScoreKey)
  {
    var g := OfKind(all, k);
    assert forall c :: c in g <==> c in multiset(g);
    SortDesc(g, ScoreKey)
  }

  /** `max(1, max_count // len(type_groups)) if type_groups else max_count`. */
  function MaxPerType(maxCount: nat, groups: nat): (r: nat)
    ensures groups > 0 ==> r >= 1 && (maxCount >= groups ==> r * groups <= maxCount)
    ensures groups == 0 ==> r == maxCount
  {
    if groups > 0 then (if maxCount / groups >= 1 then maxCount / groups else 1) else maxCount
  }

  /** Extending the input by one box extends its kinds by that box's kind, when new. */
  lemma KindsSnoc(all: seq<Candidate>, i: nat)
    requires i < |all|
    ensures Kinds(all[..i + 1]) == if all[i].kind in Kinds(all[..i]) then Kinds(all[..i]) else Kinds(all[..i]) + [all[i].kind]
  {
    assert all[..i + 1][..i] == all[..i];
  }

  /** Extending the input by one box extends the group of its kind by that box. */
  lemma OfKindSnoc(all: seq<Candidate>, i: nat, k: EditKind)
    requires i < |all|
    ensures OfKind(all[..i + 1], k) == OfKind(all[..i], k) + (if all[i].kind == k then [all[i]] else [])
  {
    assert all[..i + 1][..i] == all[..i];
  }

  /** A kind that does not occur has an empty group. */
  lemma OfKindEmpty(all: seq<Candidate>, k: EditKind)
    requires k !in Kinds(all)
    ensures OfKind(all, k) == []
  {
  }

  /** The collecting pass of `type_groups`: a new kind opens a group, every box joins the group of its kind. */
  method CollectGroups(all: seq<Candidate>) returns (kinds: seq<EditKind>, groups: map<EditKind, seq<Candidate>>)
    ensures kinds == Kinds(all)
    ensures forall k :: k in groups <==> k in kinds
    ensures forall k :: k in groups ==> groups[k] == OfKind(all, k)
  {
    kinds := [];
    groups := map[];
    for i := 0 to |all|
      invariant kinds == Kinds(all[..i])
      invariant forall k :: k in groups <==> k in kinds
      invariant forall k :: k in groups ==> groups[k] == OfKind(all[..i], k)
    {
      var bbox := all[i];
      KindsSnoc(all, i);
      if bbox.kind !in groups {
        OfKindEmpty(all[..i], bbox.kind);
        kinds := kinds + [bbox.kind];
        groups := groups[bbox.kind := []];
      }
      ghost var prev := groups;
      assert prev[bbox.kind] == OfKind(all[..i], bbox.kind);
      groups := groups[bbox.kind := groups[bbox.kind] + [bbox]];
      forall k | k in groups ensures groups[k] == OfKind(all[..i + 1], k) {
        OfKindSnoc(all, i, k);
        if k != bbox.kind {
          assert groups[k] == prev[k];
        }
      }
    }
    assert all[..|all|] == all;
  }

  /** The groups of the first t kinds are sorted, the others still in input order. */
  ghost predicate SortedUpTo(all: seq<Candidate>, kinds: seq<EditKind>, groups: map<EditKind, seq<Candidate>>, t: nat)
  {
    forall i :: 0 <= i < |kinds| ==>
      kinds[i] in groups && groups[kinds[i]] == if i < t then Group(all, kinds[i]) else OfKind(all, kinds[i])
  }

  /** Sorting the next group in key order. */
  lemma SortStep(all: seq<Candidate>, kinds: seq<EditKind>, groups: map<EditKind, seq<Candidate>>, t: nat)
    requires kinds == Kinds(all) && t < |kinds|
    requires SortedUpTo(all, kinds, groups, t)
    ensures SortedUpTo(all, kinds, groups[kinds[t] := SortDesc(groups[kinds[t]], ScoreKey)], t + 1)
  {
    var next := groups[kinds[t] := SortDesc(groups[kinds[t]], ScoreKey)];
    forall i | 0 <= i < |kinds|
      ensures kinds[i] in next && next[kinds[i]] == if i < t + 1 then Group(all, kinds[i]) else OfKind(all, kinds[i])
    {
      if i != t {
        assert kinds[i] != kinds[t];
        assert next[kinds[i]] == groups[kinds[i]];
      }
    }
  }

  /** Once every group is sorted, the groups are those of `type_groups`. */
  lemma AllSorted(all: seq<Candidate>, kinds: seq<EditKind>, groups: map<EditKind, seq<Candidate>>)
    requires kinds == Kinds(all) && (forall k :: k in groups <==> k in kinds)
    requires SortedUpTo(all, kinds, groups, |kinds|)
    ensures GroupsOf(all, kinds, groups)
  {
    forall k | k in groups ensures groups[k] == Group(all, k) {
      var i :| 0 <= i < |kinds| && kinds[i] == k;
    }
  }

  /** Builds `type_groups`: the collecting pass, then an in-order sort of every group. */
  method BuildGroups(all: seq<Candidate>) returns (kinds: seq<EditKind>, groups: map<EditKind, seq<Candidate>>)
    ensures GroupsOf(all, kinds, groups)
  {
    kinds, groups := CollectGroups(all);
    for t := 0 to |kinds|
      invariant forall k :: k in groups <==> k in kinds
      invariant SortedUpTo(all, kinds, groups, t)
    {
      SortStep(all, kinds, groups, t);
      groups := groups[kinds[t] := SortDesc(groups[kinds[t]], ScoreKey)];
    }
    AllSorted(all, kinds, groups);
  }

  /* ------------------------------------------------------------- overlap */

  /** Every box from index lo on overlaps each earlier box by at most the threshold. */
  ghost predicate SpreadFrom(s: seq<Candidate>, lo: nat, threshold: real)
  {
    forall j, i :: lo <= j < |s| && 0 <= i < j ==> Iou(s[j].box, s[i].box) <= threshold
  }

  /** The `should_add` scan: no selected box overlaps b by more than the threshold. */
  method NoOverlap(b: Box, selected: seq<Candidate>, threshold: real) returns (ok: bool)
    ensures ok <==> forall i :: 0 <= i < |selected| ==> Iou(b, selected[i].box) <= threshold
  {
    ok := true;
    for i := 0 to |selected|
      invariant ok <==> forall j :: 0 <= j < i ==> Iou(b, selected[j].box) <= threshold
    {
      if Iou(b, selected[i].box) > threshold {
        return false;
      }
    }
  }

  /** Appending a box that clears every earlier one keeps the spread. */
  lemma SpreadSnoc(s: seq<Candidate>, lo: nat, threshold: real, b: Candidate)
    requires lo <= |s| && SpreadFrom(s, lo, threshold)
    requires forall i :: 0 <= i < |s| ==> Iou(b.box, s[i].box) <= threshold
    ensures SpreadFrom(s + [b], lo, threshold)
  {
    var t := s + [b];
    forall j, i | lo <= j < |t| && 0 <= i < j ensures Iou(t[j].box, t[i].box) <= threshold {
      if j < |s| {
        assert t[j] == s[j] && t[i] == s[i];
      } else {
        assert t[j] == b && t[i] == s[i];
      }
    }
  }

  /* ------------------------------------------------------------- counting */

  /** Counting a kind over a concatenation. */
  lemma {:induction false} TypeCountAppend(s: seq<Candidate>, t: seq<Candidate>, k: EditKind)
    ensures TypeCount(s + t, k) == TypeCount(s, k) + TypeCount(t, k)
    decreases |t|
  {
    if t != [] {
      var t0 := t[..|t| - 1];
      var u := s + t;
      assert u[..|u| - 1] == s + t0;
      assert u[|u| - 1] == t[|t| - 1];
      TypeCountAppend(s, t0, k);
      assert TypeCount(u, k) == TypeCount(u[..|u| - 1], k) + (if u[|u| - 1].kind == k then 1 else 0);
    } else {
      assert s + t == s;
    }
  }

  /** A kind absent from a sequence is counted zero times. */
  lemma {:induction false} TypeCountAbsent(s: seq<Candidate>, k: EditKind)
    requires forall c :: c in s ==> c.kind != k
    ensures TypeCount(s, k) == 0
  {
    if s != [] {
      var s0 := s[..|s| - 1];
      assert s[|s| - 1] in s;
      assert forall c :: c in s0 ==> c in s;
      TypeCountAbsent(s0, k);
    }
  }

  /** In a sequence of one kind, that kind is counted once per element. */
  lemma {:induction false} TypeCountUniform(s: seq<Candidate>, k: EditKind)
    requires forall c :: c in s ==> c.kind == k
    ensures TypeCount(s, k) == |s|
  {
    if s != [] {
      var s0 := s[..|s| - 1];
      assert s[|s| - 1] in s;
      assert forall c :: c in s0 ==> c in s;
      TypeCountUniform(s0, k);
    }
  }

  /* ------------------------------------------------------------- round robin */

  /**
   * The inner loop of the round-robin phase over one sorted group: stop at the
   * quota, skip boxes overlapping a pick by more than 0.8, and stop once
   * `max_count` boxes are selected.
   */
  method TakeFromGroup(bboxes: seq<Candidate>, selected0: seq<Candidate>, maxCount: nat, maxPerType: nat)
    returns (selected: seq<Candidate>)
    ensures |selected0| <= |selected| && selected[..|selected0|] == selected0
    ensures forall c :: c in selected[|selected0|..] ==> c in bboxes
    ensures |selected| - |selected0| <= maxPerType
    ensures SpreadFrom(selected, |selected0|, 0.8)
    ensures selected0 == [] && bboxes != [] && maxPerType >= 1 ==> |selected| >= 1
  {
    selected := selected0;
    var typeSelected := 0;
    for n := 0 to |bboxes|
      invariant |selected| == |selected0| + typeSelected && selected[..|selected0|] == selected0
      invariant n > 0 && selected0 == [] && maxPerType >= 1 ==> |selected| >= 1
      invariant forall c :: c in selected[|selected0|..] ==> c in bboxes[..n]
      invariant typeSelected <= maxPerType
      invariant SpreadFrom(selected, |selected0|, 0.8)
    {
      if typeSelected >= maxPerType {
        break;
      }
      var bbox := bboxes[n];
      var shouldAdd := NoOverlap(bbox.box, selected, 0.8);
      if shouldAdd {
        SpreadSnoc(selected, |selected0|, 0.8, bbox);
        assert (selected + [bbox])[|selected0|..] == selected[|selected0|..] + [bbox];
        selected := selected + [bbox];
        typeSelected := typeSelected + 1;
      }
      assert bboxes[..n + 1] == bboxes[..n] + [bbox];
      if |selected| >= maxCount {
        break;
      }
    }
  }

  /** The groups as `BuildGroups` leaves them. */
  ghost predicate GroupsOf(all: seq<Candidate>, kinds: seq<EditKind>, groups: map<EditKind, seq<Candidate>>)
  {
    kinds == Kinds(all)
    && (forall k :: k in groups <==> k in kinds)
    && (forall k :: k in groups ==> groups[k] == Group(all, k))
  }

  /** One group's picks: drawn from the input, of that kind, within the quota. */
  lemma GroupPicks(all: seq<Candidate>, k: EditKind, selected0: seq<Candidate>, selected: seq<Candidate>, maxPerType: nat)
    requires |selected0| <= |selected| && selected[..|selected0|] == selected0
    requires forall c :: c in selected[|selected0|..] ==> c in Group(all, k)
    requires |selected| - |selected0| <= maxPerType
    requires forall c :: c in selected0 ==> c.kind != k
    ensures forall c :: c in selected[|selected0|..] ==> c in all && c.kind == k
    ensures TypeCount(selected, k) <= maxPerType
    ensures forall k' :: k' != k ==> TypeCount(selected, k') == TypeCount(selected0, k')
  {
    var added := selected[|selected0|..];
    assert selected == selected0 + added;
    forall k' ensures TypeCount(selected, k') == TypeCount(selected0, k') + TypeCount(added, k') {
      TypeCountAppend(selected0, added, k');
    }
    TypeCountAbsent(selected0, k);
    TypeCountUniform(added, k);
    forall k' | k' != k ensures TypeCount(added, k') == 0 {
      TypeCountAbsent(added, k');
    }
  }

  /** A spread prefix followed by boxes that clear everything before them is spread throughout. */
  lemma SpreadJoin(before: seq<Candidate>, selected: seq<Candidate>, threshold: real)
    requires |before| <= |selected| && selected[..|before|] == before
    requires SpreadFrom(before, 0, threshold) && SpreadFrom(selected, |before|, threshold)
    ensures SpreadFrom(selected, 0, threshold)
  {
    forall j, i | 0 <= j < |selected| && 0 <= i < j ensures Iou(selected[j].box, selected[i].box) <= threshold {
      if j < |before| {
        assert selected[j] == before[j] && selected[i] == before[i];
      }
    }
  }

  /** What holds after the first t groups of the round-robin phase. */
  ghost predicate RoundRobinState(all: seq<Candidate>, kinds: seq<EditKind>, selected: seq<Candidate>, t: nat, maxPerType: nat)
    requires t <= |kinds|
  {
    (forall c :: c in selected ==> c in all && c.kind in kinds[..t])
    && SpreadFrom(selected, 0, 0.8)
    && (forall k :: k in kinds[..t] ==> TypeCount(selected, k) <= maxPerType)
    && (forall k :: k !in kinds[..t] ==> TypeCount(selected, k) == 0)
  }

  /** The group of the first kind seen holds at least the first box. */
  lemma FirstKindNonEmpty(all: seq<Candidate>, kinds: seq<EditKind>, groups: map<EditKind, seq<Candidate>>)
    requires GroupsOf(all, kinds, groups) && kinds != []
    ensures groups[kinds[0]] != []
  {
    assert kinds[0] in kinds;
    var c :| c in all && c.kind == kinds[0];
    assert c in Group(all, kinds[0]);
  }

  /** A non-empty input has at least one kind. */
  lemma KindsNonEmpty(all: seq<Candidate>)
    requires all != []
    ensures Kinds(all) != []
  {
    assert all[0] in all;
  }

  /** One group's round keeps the round-robin state. */
  lemma RoundRobinStep(all: seq<Candidate>, kinds: seq<EditKind>, before: seq<Candidate>, selected: seq<Candidate>,
                       t: nat, maxPerType: nat)
    requires kinds == Kinds(all) && t < |kinds|
    requires RoundRobinState(all, kinds, before, t, maxPerType)
    requires |before| <= |selected| && selected[..|before|] == before
    requires forall c :: c in selected[|before|..] ==> c in Group(all, kinds[t])
    requires |selected| - |before| <= maxPerType
    requires SpreadFrom(selected, |before|, 0.8)
    ensures RoundRobinState(all, kinds, selected, t + 1, maxPerType)
  {
    var kind := kinds[t];
    assert kind !in kinds[..t];
    assert forall c :: c in before ==> c.kind != kind;
    GroupPicks(all, kind, before, selected, maxPerType);
    StepMembers(all, kinds, before, selected, t);
    StepCounts(kinds, before, selected, t, maxPerType);
    SpreadJoin(before, selected, 0.8);
    RoundRobinStateIntro(all, kinds, selected, t + 1, maxPerType);
  }

  /** The round-robin state from its four parts. */
  lemma RoundRobinStateIntro(all: seq<Candidate>, kinds: seq<EditKind>, selected: seq<Candidate>, t: nat, maxPerType: nat)
    requires t <= |kinds|
    requires forall c :: c in selected ==> c in all && c.kind in kinds[..t]
    requires SpreadFrom(selected, 0, 0.8)
    requires forall k :: k in kinds[..t] ==> TypeCount(selected, k) <= maxPerType
    requires forall k :: k !in kinds[..t] ==> TypeCount(selected, k) == 0
    ensures RoundRobinState(all, kinds, selected, t, maxPerType)
  {
  }

  /** After one group's round every pick is an input box of a kind seen so far. */
  lemma StepMembers(all: seq<Candidate>, kinds: seq<EditKind>, before: seq<Candidate>, selected: seq<Candidate>, t: nat)
    requires t < |kinds| && |before| <= |selected| && selected[..|before|] == before
    requires forall c :: c in before ==> c in all && c.kind in kinds[..t]
    requires forall c :: c in selected[|before|..] ==> c in all && c.kind == kinds[t]
    ensures forall c :: c in selected ==> c in all && c.kind in kinds[..t + 1]
  {
    Joined(before, selected, kinds, t);
    var added := selected[|before|..];
    assert selected == before + added;
    forall c | c in selected ensures c in all {
      if c !in before {
        assert c in added;
      }
    }
  }

  /** After one group's round the counts of the kinds seen so far are within the quota, and the others are zero. */
  lemma StepCounts(kinds: seq<EditKind>, before: seq<Candidate>, selected: seq<Candidate>, t: nat, maxPerType: nat)
    requires t < |kinds| && kinds[t] !in kinds[..t]
    requires forall k :: k in kinds[..t] ==> TypeCount(before, k) <= maxPerType
    requires forall k :: k !in kinds[..t] ==> TypeCount(before, k) == 0
    requires TypeCount(selected, kinds[t]) <= maxPerType
    requires forall k :: k != kinds[t] ==> TypeCount(selected, k) == TypeCount(before, k)
    ensures forall k :: k in kinds[..t + 1] ==> TypeCount(selected, k) <= maxPerType
    ensures forall k :: k !in kinds[..t + 1] ==> TypeCount(selected, k) == 0
  {
    assert kinds[..t + 1] == kinds[..t] + [kinds[t]];
  }

  /**
   * The round-robin phase: every group in key order, each contributing at
   * most `max_per_type` boxes; it stops once `max_count` boxes are selected.
   */
  method RoundRobin(all: seq<Candidate>, kinds: seq<EditKind>, groups: map<EditKind, seq<Candidate>>,
                    maxCount: nat, maxPerType: nat) returns (selected: seq<Candidate>)
    requires GroupsOf(all, kinds, groups)
    ensures forall c :: c in selected ==> c in all
    ensures SpreadFrom(selected, 0, 0.8)
    ensures forall k :: TypeCount(selected, k) <= maxPerType
    ensures all != [] && maxPerType >= 1 ==> |selected| >= 1
  {
    selected := [];
    if all != [] {
      KindsNonEmpty(all);
    }
    for t := 0 to |kinds|
      invariant RoundRobinState(all, kinds, selected, t, maxPerType)
      invariant t == 0 ==> selected == []
      invariant t > 0 && maxPerType >= 1 ==> |selected| >= 1
    {
      ghost var before := selected;
      if t == 0 {
        FirstKindNonEmpty(all, kinds, groups);
      }
      selected := TakeFromGroup(groups[kinds[t]], selected, maxCount, maxPerType);
      RoundRobinStep(all, kinds, before, selected, t, maxPerType);
      if |selected| >= maxCount {
        break;
      }
    }
  }

  /** The bookkeeping after one group: what was there and what was added together lie in the kinds so far. */
  lemma Joined(before: seq<Candidate>, selected: seq<Candidate>, kinds: seq<EditKind>, t: nat)
    requires t < |kinds| && |before| <= |selected| && selected[..|before|] == before
    requires forall c :: c in before ==> c.kind in kinds[..t]
    requires forall c :: c in selected[|before|..] ==> c.kind == kinds[t]
    ensures forall c :: c in selected ==> c.kind in kinds[..t + 1]
  {
    assert selected == before + selected[|before|..];
    assert kinds[..t + 1] == kinds[..t] + [kinds[t]];
  }

  /* ------------------------------------------------------------- fill */

  /** `[bbox for bbox in all if bbox not in selected]`. */
  function Unpicked(all: seq<Candidate>, selected: seq<Candidate>): (r: seq<Candidate>)
    ensures forall c :: c in r <==> c in all && c !in selected
  {
    if all == [] then []
    else
      var init := all[..|all| - 1];
      var last := all[|all| - 1];
      assert all == init + [last];
      Unpicked(init, selected) + (if last !in selected then [last] else [])
  }

  /** The fill phase over the score-sorted leftovers: stop at `max_count`, skip boxes overlapping a pick by more than 0.6. */
  method Fill(remaining: seq<Candidate>, selected0: seq<Candidate>, maxCount: nat) returns (selected: seq<Candidate>)
    ensures |selected0| <= |selected| && selected[..|selected0|] == selected0
    ensures forall c :: c in selected[|selected0|..] ==> c in remaining
    ensures SpreadFrom(selected, |selected0|, 0.6)
  {
    selected := selected0;
    for n := 0 to |remaining|
      invariant |selected0| <= |selected| && selected[..|selected0|] == selected0
      invariant forall c :: c in selected[|selected0|..] ==> c in remaining[..n]
      invariant SpreadFrom(selected, |selected0|, 0.6)
    {
      if |selected| >= maxCount {
        break;
      }
      var bbox := remaining[n];
      var shouldAdd := NoOverlap(bbox.box, selected, 0.6);
      if shouldAdd {
        SpreadSnoc(selected, |selected0|, 0.6, bbox);
        assert (selected + [bbox])[|selected0|..] == selected[|selected0|..] + [bbox];
        selected := selected + [bbox];
      }
      assert remaining[..n + 1] == remaining[..n] + [bbox];
    }
  }

  /* ------------------------------------------------------------- result */

  /** Cutting a score-sorted permutation keeps boxes scoring at least as high as every box cut off. */
  lemma CutKeepsBest(sorted: seq<Candidate>, picks: seq<Candidate>, n: nat)
    requires n <= |sorted| && SortedDesc(sorted, ScoreKey) && multiset(sorted) == multiset(picks)
    ensures forall c, d :: c in sorted[..n] && d in picks && d !in sorted[..n] ==> c.score >= d.score
  {
    forall c, d | c in sorted[..n] && d in picks && d !in sorted[..n] ensures c.score >= d.score {
      assert d in multiset(picks);
      var i :| 0 <= i < n && sorted[..n][i] == c;
      var j :| 0 <= j < |sorted| && sorted[j] == d;
      assert ScoreKey(sorted[i]) >= ScoreKey(sorted[j]);
    }
  }

  /** The fill phase as `multi_strategy_bbox_selection` runs it: only while slots remain, over the unpicked boxes by score. */
  method FillPhase(all: seq<Candidate>, phase1: seq<Candidate>, maxCount: nat) returns (selected: seq<Candidate>)
    requires forall c :: c in phase1 ==> c in all
    ensures |phase1| <= |selected| && selected[..|phase1|] == phase1
    ensures forall c :: c in selected ==> c in all
    ensures SpreadFrom(selected, |phase1|, 0.6)
  {
    selected := phase1;
    if |selected| < maxCount {
      var remaining := Unpicked(all, selected);
      remaining := SortDesc(remaining, ScoreKey);
      selected := Fill(remaining, selected, maxCount);
      forall c | c in selected ensures c in all {
        if c !in phase1 {
          assert selected == phase1 + selected[|phase1|..];
          assert c in multiset(remaining);
        }
      }
    }
  }

  /** The final `sort(..., reverse=True)` and `[:max_count]`. */
  method Cut(selected: seq<Candidate>, maxCount: nat) returns (result: seq<Candidate>)
    ensures |result| == if maxCount <= |selected| then maxCount else |selected|
    ensures SortedDesc(result, ScoreKey)
    ensures multiset(result) <= multiset(selected)
    ensures forall c, d :: c in result && d in selected && d !in result ==> c.score >= d.score
  {
    var sorted := SortDesc(selected, ScoreKey);
    var n := if maxCount <= |sorted| then maxCount else |sorted|;
    result := sorted[..n];
    PrefixMultiset(sorted, n);
    CutKeepsBest(sorted, selected, n);
  }

  /** A prefix is a sub-multiset. */
  lemma PrefixMultiset(s: seq<Candidate>, n: nat)
    requires n <= |s|
    ensures multiset(s[..n]) <= multiset(s)
  {
    assert s == s[..n] + s[n..];
  }

  /**
   * `multi_strategy_bbox_selection`. Besides the result it names the picks in
   * order and how many of them the round-robin phase made.
   */
  method MultiStrategySelection(all: seq<Candidate>, maxCount: nat)
    returns (result: seq<Candidate>, ghost picks: seq<Candidate>, ghost roundRobin: nat)
    ensures all == [] ==> result == []
    ensures |result| == if maxCount <= |picks| then maxCount else |picks|
    ensures all != [] ==> |picks| >= 1
    ensures SortedDesc(result, ScoreKey)
    ensures multiset(result) <= multiset(picks)
    ensures forall c, d :: c in result && d in picks && d !in result ==> c.score >= d.score
    ensures forall c :: c in picks ==> c in all
    ensures roundRobin <= |picks|
    ensures SpreadFrom(picks[..roundRobin], 0, 0.8)
    ensures SpreadFrom(picks, roundRobin, 0.6)
    ensures forall k :: TypeCount(picks[..roundRobin], k) <= MaxPerType(maxCount, |Kinds(all)|)
  {
    if all == [] {
      return [], [], 0;
    }
    var kinds, groups := BuildGroups(all);
    var maxPerType := if |groups| > 0 then (if maxCount / |groups| >= 1 then maxCount / |groups| else 1) else maxCount;
    GroupCount(kinds, groups);
    var phase1 := RoundRobin(all, kinds, groups, maxCount, maxPerType);
    var selected := FillPhase(all, phase1, maxCount);
    picks, roundRobin := selected, |phase1|;
    result := Cut(selected, maxCount);
  }

  /** A map keyed exactly by the distinct elements of a sequence has as many keys as the sequence has elements. */
  lemma {:induction false} GroupCount(kinds: seq<EditKind>, groups: map<EditKind, seq<Candidate>>)
    requires forall i, j :: 0 <= i < j < |kinds| ==> kinds[i] != kinds[j]
    requires forall k :: k in groups <==> k in kinds
    ensures |groups| == |kinds|
    decreases |kinds|
  {
    if kinds != [] {
      var last := kinds[|kinds| - 1];
      var rest := groups - {last};
      forall k ensures k in rest <==> k in kinds[..|kinds| - 1] {
        assert kinds == kinds[..|kinds| - 1] + [last];
      }
      GroupCount(kinds[..|kinds| - 1], rest);
      assert groups.Keys == rest.Keys + {last};
    }
  }
}

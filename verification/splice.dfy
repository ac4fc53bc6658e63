/**
 * Splicing a text buffer: cutting out a span, inserting at an offset, and doing
 * several of either from the last position to the first, as the editor's
 * column operations do.
 */
module Splice {

  /** The half-open character range `[start, end)` of a buffer. */
  datatype Span = Span(start: int, end: int)

  predicate Within(sp: Span, n: int) {
    0 <= sp.start <= sp.end <= n
  }

  /** The buffer with `sp` cut out: what stays before, the cut text and what stays after make up `s`. */
  function Cut(s: string, sp: Span): (r: string)
    requires Within(sp, |s|)
    ensures |r| == |s| - (sp.end - sp.start)
    ensures r[..sp.start] == s[..sp.start] && r[sp.start..] == s[sp.end..]
    ensures r[..sp.start] + s[sp.start..sp.end] + r[sp.start..] == s
  {
    s[..sp.start] + s[sp.end..]
  }

  /** `t` put in at offset `i`; text before and after `i` is kept. */
  function Insert(s: string, i: int, t: string): (r: string)
    requires 0 <= i <= |s|
    ensures |r| == |s| + |t|
    ensures r[..i] == s[..i] && r[i..i + |t|] == t && r[i + |t|..] == s[i..]
  {
    s[..i] + t + s[i..]
  }

  /** `sp` replaced by `t`: a cut followed by an insertion at the cut's start. */
  function Replace(s: string, sp: Span, t: string): (r: string)
    requires Within(sp, |s|)
    ensures |r| == |s| - (sp.end - sp.start) + |t|
    ensures r == Insert(Cut(s, sp), sp.start, t)
  {
    s[..sp.start] + t + s[sp.end..]
  }

  /** Replacing the new text by the old one restores the buffer. */
  lemma ReplaceUndo(s: string, sp: Span, t: string)
    requires Within(sp, |s|)
    ensures Within(Span(sp.start, sp.start + |t|), |Replace(s, sp, t)|)
    ensures Replace(Replace(s, sp, t), Span(sp.start, sp.start + |t|), s[sp.start..sp.end]) == s
  {
    var r := Replace(s, sp, t);
    assert r[..sp.start] == s[..sp.start];
    assert r[sp.start + |t|..] == s[sp.end..];
    assert s == s[..sp.start] + s[sp.start..sp.end] + s[sp.end..];
  }

  /** Cutting out what was just inserted restores the buffer. */
  lemma CutUndoesInsert(s: string, i: int, t: string)
    requires 0 <= i <= |s|
    ensures Within(Span(i, i + |t|), |Insert(s, i, t)|)
    ensures Cut(Insert(s, i, t), Span(i, i + |t|)) == s
  {
    assert s == s[..i] + s[i..];
  }

  // ---------------------------------------------------------------------------
  // Several insertions

  /** Offsets inside `[0, n]` in ascending order. */
  predicate Ascending(ps: seq<int>, n: int) {
    (forall k :: 0 <= k < |ps| ==> 0 <= ps[k] <= n) &&
    (forall j, k :: 0 <= j < k < |ps| ==> ps[j] <= ps[k])
  }

  /**
   * `t` inserted at every offset of `ps`, the largest first, so that each
   * insertion leaves the offsets still to be used where they were.
   */
  function InsertAll(s: string, ps: seq<int>, t: string): (r: string)
    requires Ascending(ps, |s|)
    ensures |s| <= |r|
    ensures ps != [] ==> r[..ps[0]] == s[..ps[0]]
    decreases |ps|
  {
    if ps == [] then s
    else
      var rest := InsertAll(s, ps[1..], t);
      assert |rest| >= |s|;
      Insert(rest, ps[0], t)
  }

  /** Each insertion adds one copy of `t`. */
  lemma {:induction false} InsertAllLength(s: string, ps: seq<int>, t: string)
    requires Ascending(ps, |s|)
    ensures |InsertAll(s, ps, t)| == |s| + |ps| * |t|
    decreases |ps|
  {
    if ps != [] {
      assert Ascending(ps[1..], |s|);
      InsertAllLength(s, ps[1..], t);
      assert |ps| * |t| == |t| + |ps[1..]| * |t|;
    }
  }

  /** One step of `InsertAll`, taken at index `i` of the offsets. */
  lemma InsertAllStep(s: string, ps: seq<int>, t: string, i: int)
    requires Ascending(ps, |s|) && 0 <= i < |ps|
    ensures Ascending(ps[i..], |s|) && Ascending(ps[i + 1..], |s|)
    ensures ps[i] <= |InsertAll(s, ps[i + 1..], t)|
    ensures InsertAll(s, ps[i..], t) == Insert(InsertAll(s, ps[i + 1..], t), ps[i], t)
  {
    assert ps[i..][1..] == ps[i + 1..];
  }

  /** Text before the first offset is untouched. */
  lemma InsertAllKeepsPrefix(s: string, ps: seq<int>, t: string, m: int)
    requires Ascending(ps, |s|) && 0 <= m <= |s| && (ps != [] ==> m <= ps[0])
    ensures m <= |InsertAll(s, ps, t)| && InsertAll(s, ps, t)[..m] == s[..m]
  {
    if ps != [] {
      var r := InsertAll(s, ps, t);
      assert r[..m] == r[..ps[0]][..m];
      assert s[..m] == s[..ps[0]][..m];
    }
  }

  /**
   * Reference reading of the same result, from left to right: the pieces of `s`
   * between consecutive offsets, starting at `lo`, with one `t` between pieces.
   */
  function Weave(s: string, ps: seq<int>, t: string, lo: int): string
    requires Ascending(ps, |s|) && 0 <= lo <= |s| && (ps != [] ==> lo <= ps[0])
    decreases |ps|
  {
    if ps == [] then s[lo..] else s[lo..ps[0]] + t + Weave(s, ps[1..], t, ps[0])
  }

  /** Inserting from the last offset back to the first yields exactly the woven text. */
  lemma {:induction false} InsertAllIsWeave(s: string, ps: seq<int>, t: string, lo: int)
    requires Ascending(ps, |s|) && 0 <= lo <= |s| && (ps != [] ==> lo <= ps[0])
    ensures InsertAll(s, ps, t) == s[..lo] + Weave(s, ps, t, lo)
    decreases |ps|
  {
    if ps == [] {
      assert s == s[..lo] + s[lo..];
    } else {
      var p, tail := ps[0], ps[1..];
      assert Ascending(tail, |s|);
      var w := Weave(s, tail, t, p);
      InsertAllIsWeave(s, tail, t, p);
      var rest := InsertAll(s, tail, t);
      assert rest[..p] == s[..p] && rest[p..] == w;
      assert s[..p] == s[..lo] + s[lo..p];
      assert (s[..lo] + s[lo..p]) + t + w == s[..lo] + (s[lo..p] + t + w);
    }
  }

  // ---------------------------------------------------------------------------
  // Several cuts

  /** Spans inside `[0, n]`, each ending before the next one starts. */
  predicate Disjoint(sps: seq<Span>, n: int) {
    (forall k :: 0 <= k < |sps| ==> Within(sps[k], n)) &&
    (forall j, k :: 0 <= j < k < |sps| ==> sps[j].end <= sps[k].start)
  }

  /** Total number of characters the spans cover. */
  function Width(sps: seq<Span>): int {
    if sps == [] then 0 else (sps[0].end - sps[0].start) + Width(sps[1..])
  }

  /** Every span of `sps` cut out of `s`, the last one first. */
  function RemoveAll(s: string, sps: seq<Span>): (r: string)
    requires Disjoint(sps, |s|)
    ensures |r| == |s| - Width(sps) && |r| <= |s|
    ensures sps != [] ==> sps[0].start <= |r| && r[..sps[0].start] == s[..sps[0].start]
    decreases |sps|
  {
    if sps == [] then s
    else
      var rest := RemoveAll(s, sps[1..]);
      assert sps[0].end <= |rest| by {
        if sps[1..] != [] { assert sps[0].end <= sps[1].start; }
      }
      Cut(rest, sps[0])
  }

  /** One step of `RemoveAll`, taken at index `i` of the spans. */
  lemma RemoveAllStep(s: string, sps: seq<Span>, i: int)
    requires Disjoint(sps, |s|) && 0 <= i < |sps|
    ensures Disjoint(sps[i..], |s|) && Disjoint(sps[i + 1..], |s|)
    ensures Within(sps[i], |RemoveAll(s, sps[i + 1..])|)
    ensures RemoveAll(s, sps[i..]) == Cut(RemoveAll(s, sps[i + 1..]), sps[i])
  {
    assert sps[i..][1..] == sps[i + 1..];
    if i + 1 < |sps| {
      assert sps[i].end <= sps[i + 1].start;
    }
  }

  /** Text before the first span is untouched. */
  lemma RemoveAllKeepsPrefix(s: string, sps: seq<Span>, m: int)
    requires Disjoint(sps, |s|) && 0 <= m <= |s| && (sps != [] ==> m <= sps[0].start)
    ensures m <= |RemoveAll(s, sps)| && RemoveAll(s, sps)[..m] == s[..m]
  {
    if sps != [] {
      var r := RemoveAll(s, sps);
      assert r[..m] == r[..sps[0].start][..m];
      assert s[..m] == s[..sps[0].start][..m];
    }
  }

  /** Reference reading: the pieces of `s` between the spans, starting at `lo`. */
  function Keep(s: string, sps: seq<Span>, lo: int): string
    requires Disjoint(sps, |s|) && 0 <= lo <= |s| && (sps != [] ==> lo <= sps[0].start)
    decreases |sps|
  {
    if sps == [] then s[lo..] else s[lo..sps[0].start] + Keep(s, sps[1..], sps[0].end)
  }

  /** Cutting from the last span back to the first leaves exactly the kept pieces. */
  lemma {:induction false} RemoveAllIsKeep(s: string, sps: seq<Span>, lo: int)
    requires Disjoint(sps, |s|) && 0 <= lo <= |s| && (sps != [] ==> lo <= sps[0].start)
    ensures RemoveAll(s, sps) == s[..lo] + Keep(s, sps, lo)
    decreases |sps|
  {
    if sps == [] {
      assert s == s[..lo] + s[lo..];
    } else {
      var sp, tail := sps[0], sps[1..];
      assert Disjoint(tail, |s|);
      var k := Keep(s, tail, sp.end);
      RemoveAllIsKeep(s, tail, sp.end);
      var rest := RemoveAll(s, tail);
      assert rest[..sp.start] == s[..sp.start] && rest[sp.end..] == k;
      assert s[..sp.start] == s[..lo] + s[lo..sp.start];
      assert (s[..lo] + s[lo..sp.start]) + k == s[..lo] + (s[lo..sp.start] + k);
    }
  }


  // ---------------------------------------------------------------------------
  // Cutting out what was inserted

  /** Spans moved right by `d`. */
  function Shift(sps: seq<Span>, d: int): seq<Span> {
    seq(|sps|, k requires 0 <= k < |sps| => Span(sps[k].start + d, sps[k].end + d))
  }

  /**
   * Where the copies of a text of length `w` that `InsertAll` puts in at the
   * offsets `ps` end up, everything moved right by `base`: each copy lies past
   * the copies before it.
   */
  function Inserted(ps: seq<int>, w: int, base: int): (sps: seq<Span>)
    ensures |sps| == |ps|
    decreases |ps|
  {
    if ps == [] then [] else [Span(ps[0] + base, ps[0] + base + w)] + Inserted(ps[1..], w, base + w)
  }

  /** Copy `k` lies at its offset, moved right by `base` and by the `k` copies before it. */
  lemma {:induction false} InsertedAt(ps: seq<int>, w: int, base: int, k: nat)
    requires k < |ps|
    ensures Inserted(ps, w, base)[k] == Span(ps[k] + base + k * w, ps[k] + base + k * w + w)
    decreases k
  {
    if k > 0 {
      InsertedAt(ps[1..], w, base + w, k - 1);
      assert (k - 1) * w + w == k * w;
    }
  }

  /** Moving everything right moves every inserted copy right. */
  lemma {:induction false} InsertedShift(ps: seq<int>, w: int, base: int, d: int)
    ensures Inserted(ps, w, base + d) == Shift(Inserted(ps, w, base), d)
    decreases |ps|
  {
    if ps != [] {
      InsertedShift(ps[1..], w, base + w, d);
    }
  }

  /** The inserted copies lie inside the grown text, in order and apart. */
  lemma {:induction false} InsertedDisjoint(ps: seq<int>, n: int, w: nat, base: nat)
    requires Ascending(ps, n)
    ensures Disjoint(Inserted(ps, w, base), n + base + |ps| * w)
    ensures ps != [] ==> Inserted(ps, w, base)[0].start == ps[0] + base
    decreases |ps|
  {
    if ps != [] {
      var tail := Inserted(ps[1..], w, base + w);
      var sps := Inserted(ps, w, base);
      var m := n + base + |ps| * w;
      assert Ascending(ps[1..], n);
      InsertedDisjoint(ps[1..], n, w, base + w);
      assert |ps| * w == w + |ps[1..]| * w;
      assert sps[1..] == tail;
      forall k | 0 <= k < |sps|
        ensures Within(sps[k], m)
      {
        if k > 0 { assert sps[k] == tail[k - 1]; }
      }
      forall j, k | 0 <= j < k < |sps|
        ensures sps[j].end <= sps[k].start
      {
        if j == 0 {
          assert ps[0] <= ps[1];
          assert sps[k] == tail[k - 1];
          if k > 1 { assert tail[0].end <= tail[k - 1].start; }
        } else {
          assert sps[j] == tail[j - 1] && sps[k] == tail[k - 1];
        }
      }
    }
  }

  /** A cut past an insertion point commutes with the insertion. */
  lemma CutInsertCommute(s: string, p: int, u: string, sp: Span)
    requires 0 <= p <= sp.start && Within(sp, |s|)
    ensures Within(Span(sp.start + |u|, sp.end + |u|), |Insert(s, p, u)|)
    ensures p <= |Cut(s, sp)|
    ensures Cut(Insert(s, p, u), Span(sp.start + |u|, sp.end + |u|)) == Insert(Cut(s, sp), p, u)
  {
    var a := Cut(Insert(s, p, u), Span(sp.start + |u|, sp.end + |u|));
    var b := Insert(Cut(s, sp), p, u);
    assert a == s[..p] + u + s[p..sp.start] + s[sp.end..] by {
      assert Insert(s, p, u)[..sp.start + |u|] == s[..p] + u + s[p..sp.start];
      assert Insert(s, p, u)[sp.end + |u|..] == s[sp.end..];
    }
    assert b == s[..p] + u + s[p..sp.start] + s[sp.end..] by {
      assert Cut(s, sp)[..p] == s[..p];
      assert Cut(s, sp)[p..] == s[p..sp.start] + s[sp.end..];
    }
  }

  /** Spans moved right stay disjoint in a text grown by as much. */
  lemma ShiftDisjoint(sps: seq<Span>, n: int, d: nat)
    requires Disjoint(sps, n)
    ensures Disjoint(Shift(sps, d), n + d)
  {
    var moved := Shift(sps, d);
    forall j, k | 0 <= j < k < |moved|
      ensures moved[j].end <= moved[k].start
    {
      assert sps[j].end <= sps[k].start;
    }
  }

  /** Cuts past an insertion point commute with the insertion. */
  lemma {:induction false} RemoveAllInsertCommute(s: string, p: int, u: string, sps: seq<Span>)
    requires Disjoint(sps, |s|) && 0 <= p <= |s| && (sps != [] ==> p <= sps[0].start)
    ensures Disjoint(Shift(sps, |u|), |s| + |u|)
    ensures p <= |RemoveAll(s, sps)|
    ensures RemoveAll(Insert(s, p, u), Shift(sps, |u|)) == Insert(RemoveAll(s, sps), p, u)
    decreases |sps|
  {
    ShiftDisjoint(sps, |s|, |u|);
    if sps != [] {
      var tail := sps[1..];
      assert Disjoint(tail, |s|);
      if tail != [] { assert sps[0].end <= tail[0].start; }
      RemoveAllInsertCommute(s, p, u, tail);
      CommuteStep(s, p, u, sps);
    }
  }

  /** The step of `RemoveAllInsertCommute`: from the spans after the first to all of them. */
  lemma CommuteStep(s: string, p: int, u: string, sps: seq<Span>)
    requires Disjoint(sps, |s|) && sps != [] && 0 <= p <= sps[0].start
    requires Disjoint(Shift(sps, |u|), |s| + |u|)
    requires Disjoint(Shift(sps[1..], |u|), |s| + |u|) && Disjoint(sps[1..], |s|)
    requires p <= |RemoveAll(s, sps[1..])|
    requires RemoveAll(Insert(s, p, u), Shift(sps[1..], |u|)) == Insert(RemoveAll(s, sps[1..]), p, u)
    ensures p <= |RemoveAll(s, sps)|
    ensures RemoveAll(Insert(s, p, u), Shift(sps, |u|)) == Insert(RemoveAll(s, sps), p, u)
  {
    RemoveAllStep(s, sps, 0);
    assert sps[0..] == sps;
    CutInsertCommute(RemoveAll(s, sps[1..]), p, u, sps[0]);
    ShiftStep(s, p, u, sps);
  }

  /** One step of the cuts on the grown text, taken at the first span. */
  lemma ShiftStep(s: string, p: int, u: string, sps: seq<Span>)
    requires Disjoint(sps, |s|) && 0 <= p <= |s| && sps != []
    requires Disjoint(Shift(sps, |u|), |s| + |u|)
    ensures Disjoint(Shift(sps[1..], |u|), |Insert(s, p, u)|)
    ensures Within(Span(sps[0].start + |u|, sps[0].end + |u|), |RemoveAll(Insert(s, p, u), Shift(sps[1..], |u|))|)
    ensures RemoveAll(Insert(s, p, u), Shift(sps, |u|)) ==
      Cut(RemoveAll(Insert(s, p, u), Shift(sps[1..], |u|)), Span(sps[0].start + |u|, sps[0].end + |u|))
  {
    var moved := Shift(sps, |u|);
    assert moved[1..] == Shift(sps[1..], |u|);
    RemoveAllStep(Insert(s, p, u), moved, 0);
    assert moved[0..] == moved;
  }

  /** Cutting out every copy `InsertAll` put in gives the text back. */
  lemma {:induction false} RemoveAllUndoesInsertAll(s: string, ps: seq<int>, t: string)
    requires Ascending(ps, |s|)
    ensures Disjoint(Inserted(ps, |t|, 0), |InsertAll(s, ps, t)|)
    ensures RemoveAll(InsertAll(s, ps, t), Inserted(ps, |t|, 0)) == s
    decreases |ps|
  {
    InsertedDisjoint(ps, |s|, |t|, 0);
    InsertAllLength(s, ps, t);
    if ps != [] {
      assert Ascending(ps[1..], |s|);
      RemoveAllUndoesInsertAll(s, ps[1..], t);
      UndoStep(s, ps, t);
    }
  }

  /** The step of `RemoveAllUndoesInsertAll`: from the offsets after the first to all of them. */
  lemma UndoStep(s: string, ps: seq<int>, t: string)
    requires Ascending(ps, |s|) && ps != [] && Ascending(ps[1..], |s|)
    requires Disjoint(Inserted(ps, |t|, 0), |InsertAll(s, ps, t)|)
    requires Disjoint(Inserted(ps[1..], |t|, 0), |InsertAll(s, ps[1..], t)|)
    requires RemoveAll(InsertAll(s, ps[1..], t), Inserted(ps[1..], |t|, 0)) == s
    ensures RemoveAll(InsertAll(s, ps, t), Inserted(ps, |t|, 0)) == s
  {
    var p, tail := ps[0], ps[1..];
    var rest := InsertAll(s, tail, t);
    var mine := Inserted(tail, |t|, 0);
    InsertedDisjoint(tail, |s|, |t|, 0);
    InsertAllKeepsPrefix(s, tail, t, p);
    InsertedShift(tail, |t|, 0, |t|);
    assert Inserted(ps, |t|, 0)[1..] == Shift(mine, |t|);
    RemoveAllInsertCommute(rest, p, t, mine);
    CutUndoesInsert(s, p, t);
  }

  /**
   * Copies of `t` inserted at `ps`, then `u` inserted at `at` before all of
   * them: cutting the copies where they now lie leaves only `u` inserted.
   */
  lemma RemoveAllAfterInsertions(s: string, ps: seq<int>, t: string, at: int, u: string, w: int)
    requires Ascending(ps, |s|) && 0 <= at <= |s| && (ps != [] ==> at <= ps[0]) && w == |u|
    ensures at <= |InsertAll(s, ps, t)|
    ensures Disjoint(Inserted(ps, |t|, w), |Insert(InsertAll(s, ps, t), at, u)|)
    ensures RemoveAll(Insert(InsertAll(s, ps, t), at, u), Inserted(ps, |t|, w)) == Insert(s, at, u)
  {
    var body := InsertAll(s, ps, t);
    var mine := Inserted(ps, |t|, 0);
    InsertAllKeepsPrefix(s, ps, t, at);
    RemoveAllUndoesInsertAll(s, ps, t);
    InsertedDisjoint(ps, |s|, |t|, 0);
    InsertedShift(ps, |t|, 0, |u|);
    RemoveAllInsertCommute(body, at, u, mine);
  }
}

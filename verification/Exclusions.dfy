/**
 The table of excluded static root ranges of tool/gec/backend/c/boehm_gc/mark_rts.c: sorted,
 disjoint ranges of addresses that the marker's root areas skip.
 */
module Exclusions {
  import opened Wrappers

  /** The addresses from `start` up to but not including `end`. */
  datatype Range = Range(start: nat, end: nat)

  datatype Outcome = Done | Overlap | TooMany

  predicate Has(r: Range, x: nat) {
    r.start <= x < r.end
  }

  ghost predicate Sorted(s: seq<Range>) {
    && (forall i: nat :: i < |s| ==> s[i].start < s[i].end)
    && (forall i: nat, j: nat :: i < j < |s| ==> s[i].end <= s[j].start)
  }

  /** x is in one of the ranges. */
  ghost predicate Covers(s: seq<Range>, x: nat) {
    exists i: nat :: i < |s| && Has(s[i], x)
  }

  ghost predicate Overlaps(s: seq<Range>, r: Range) {
    exists x: nat :: Has(r, x) && Covers(s, x)
  }

  /** Where a search for x ends: the first range that ends after x, if any. */
  ghost predicate FirstAfter(s: seq<Range>, x: nat, n: nat) {
    n <= |s| && (forall i: nat :: i < n ==> s[i].end <= x) && (n < |s| ==> x < s[n].end)
  }

  /** A range meets the table exactly if it reaches into the first range ending after its start. */
  lemma OverlapAtFirst(s: seq<Range>, r: Range, n: nat)
    requires Sorted(s) && r.start < r.end && FirstAfter(s, r.start, n)
    ensures Overlaps(s, r) <==> n < |s| && s[n].start < r.end
  {
    if n < |s| && s[n].start < r.end {
      var x := if s[n].start < r.start then r.start else s[n].start;
      assert Has(s[n], x) && Has(r, x) && Covers(s, x);
    }
    if Overlaps(s, r) {
      var x: nat :| Has(r, x) && Covers(s, x);
      var i: nat :| i < |s| && Has(s[i], x);
      assert i >= n;
    }
  }

  /** Only the first range ending after its start can begin where a range that meets none ends. */
  lemma AdjoiningIsFirst(s: seq<Range>, r: Range, n: nat, i: nat)
    requires Sorted(s) && r.start < r.end && FirstAfter(s, r.start, n) && !Overlaps(s, r)
    requires i < |s| && s[i].start == r.end
    ensures i == n
  {
    OverlapAtFirst(s, r, n);
    assert n <= i;
    assert s[n].start < s[n].end;
  }

  /** Joining a range to the one that starts where it ends. */
  lemma Extended(s: seq<Range>, r: Range, n: nat)
    requires Sorted(s) && r.start < r.end && FirstAfter(s, r.start, n) && n < |s| && s[n].start == r.end
    ensures var s' := s[n := Range(r.start, s[n].end)];
            Sorted(s') && forall x: nat :: Covers(s', x) <==> Covers(s, x) || Has(r, x)
  {
    var s' := s[n := Range(r.start, s[n].end)];
    forall x: nat ensures Covers(s', x) <==> Covers(s, x) || Has(r, x) {
      if Covers(s, x) { var i: nat :| i < |s| && Has(s[i], x); assert Has(s'[i], x); }
      if Has(r, x) { assert Has(s'[n], x); }
      if Covers(s', x) {
        var i: nat :| i < |s'| && Has(s'[i], x);
        assert i != n ==> Has(s[i], x);
        assert i == n ==> Has(s[n], x) || Has(r, x);
      }
    }
  }

  function Inserted(s: seq<Range>, n: nat, r: Range): seq<Range>
    requires n <= |s|
  {
    s[..n] + [r] + s[n..]
  }

  lemma InsertedAt(s: seq<Range>, n: nat, r: Range, i: nat)
    requires n <= |s| && i <= |s|
    ensures |Inserted(s, n, r)| == |s| + 1
    ensures Inserted(s, n, r)[i] == if i < n then s[i] else if i == n then r else s[i - 1]
  {
  }

  lemma InsertedSorted(s: seq<Range>, r: Range, n: nat)
    requires Sorted(s) && r.start < r.end && FirstAfter(s, r.start, n) && (n < |s| ==> r.end <= s[n].start)
    ensures Sorted(Inserted(s, n, r))
  {
    var s' := Inserted(s, n, r);
    InsertedAt(s, n, r, n);
    hide Inserted;
    forall i: nat | i < |s'| ensures s'[i].start < s'[i].end { InsertedAt(s, n, r, i); }
    forall i: nat, j: nat | i < j < |s'| ensures s'[i].end <= s'[j].start {
      InsertedAt(s, n, r, i);
      InsertedAt(s, n, r, j);
      if i == n { assert s[n].start < s[n].end; }
    }
  }

  lemma InsertedCovers(s: seq<Range>, r: Range, n: nat, x: nat)
    requires n <= |s|
    ensures Covers(Inserted(s, n, r), x) <==> Covers(s, x) || Has(r, x)
  {
    var s' := Inserted(s, n, r);
    InsertedAt(s, n, r, n);
    hide Inserted;
    if Covers(s, x) {
      var i: nat :| i < |s| && Has(s[i], x);
      InsertedAt(s, n, r, if i < n then i else i + 1);
      assert Has(s'[if i < n then i else i + 1], x);
    }
    if Has(r, x) { assert Has(s'[n], x); }
    if Covers(s', x) {
      var i: nat :| i < |s'| && Has(s'[i], x);
      InsertedAt(s, n, r, i);
      assert i != n ==> Has(s[if i < n then i else i - 1], x);
    }
  }

  /** The gap before the first range ending after x is not excluded. */
  lemma GapClear(s: seq<Range>, bottom: nat, n: nat, x: nat)
    requires Sorted(s) && FirstAfter(s, bottom, n) && bottom <= x && (n < |s| ==> x < s[n].start)
    ensures !Covers(s, x)
  {
    forall i: nat | i < |s| ensures !Has(s[i], x) {
      if n < i { assert s[n].end <= s[i].start; }
    }
  }

  /** The pieces are non-empty, ascending and apart from each other from lo to hi, and cover what is not excluded. */
  ghost predicate Pieces(s: seq<Range>, lo: nat, hi: nat, pieces: seq<Range>) {
    && (forall i: nat :: i < |pieces| ==> pieces[i].start < pieces[i].end)
    && (forall i: nat, j: nat :: i < j < |pieces| ==> pieces[i].end < pieces[j].start)
    && (forall i: nat :: i < |pieces| ==> lo <= pieces[i].start && pieces[i].end <= hi)
    && (forall x: nat :: Covers(pieces, x) <==> lo <= x < hi && !Covers(s, x))
  }

  /** One more piece, up to `end`, after which everything up to `next` is excluded. */
  lemma PieceAdded(s: seq<Range>, lo: nat, mid: nat, end: nat, next: nat, pieces: seq<Range>)
    requires Pieces(s, lo, mid, pieces) && lo <= mid <= end <= next
    requires forall i: nat :: i < |pieces| ==> pieces[i].end < mid
    requires forall x: nat :: mid <= x < end ==> !Covers(s, x)
    requires forall x: nat :: end <= x < next ==> Covers(s, x)
    ensures Pieces(s, lo, next, if end > mid then pieces + [Range(mid, end)] else pieces)
  {
    if end > mid {
      var r := Range(mid, end);
      var pieces' := pieces + [r];
      forall x: nat ensures Covers(pieces', x) <==> Covers(pieces, x) || Has(r, x) {
        if Covers(pieces, x) { var i: nat :| i < |pieces| && Has(pieces[i], x); assert Has(pieces'[i], x); }
        if Has(r, x) { assert Has(pieces'[|pieces|], x); }
      }
    }
  }

  /** Cutting the range short cuts nothing off but what is excluded. */
  lemma PiecesCut(s: seq<Range>, lo: nat, mid: nat, top: nat, hi: nat, pieces: seq<Range>)
    requires Pieces(s, lo, hi, pieces) && mid <= top <= hi && (forall x: nat :: mid <= x < hi ==> Covers(s, x))
    requires forall i: nat :: i < |pieces| ==> pieces[i].end <= mid
    ensures Pieces(s, lo, top, pieces)
  {
    forall x: nat | Covers(pieces, x) ensures x < top {
      var i: nat :| i < |pieces| && Has(pieces[i], x);
    }
  }

  class Table {
    const table: array<Range>
    var entries: nat

    ghost predicate Valid()
      reads this, table
    {
      entries <= table.Length && Sorted(table[..entries])
    }

    constructor (max: nat)
      ensures Valid() && entries == 0 && table.Length == max && fresh(table)
    {
      table := new Range[max](_ => Range(0, 0));
      entries := 0;
    }

    /** GC_next_exclusion: binary search for the first range ending after x. */
    method NextExclusion(x: nat) returns (r: Option<nat>)
      requires Valid() && entries > 0
      ensures FirstAfter(table[..entries], x, if r.Some? then r.value else entries)
      ensures r.Some? ==> r.value < entries
    {
      var low, high := 0, entries - 1;
      while high > low
        invariant low <= high < entries
        invariant forall i: nat :: i < low ==> table[i].end <= x
        invariant high < entries - 1 ==> x < table[high].end
      {
        var mid := (low + high) / 2;
        if table[mid].end <= x {
          assert forall i: nat :: i < mid ==> table[..entries][i].end <= table[..entries][mid].start;
          low := mid + 1;
        } else {
          high := mid;
        }
      }
      if table[low].end <= x { return None; }
      return Some(low);
    }

    /** GC_exclude_static_roots_inner; Overlap and TooMany are aborts. */
    method Exclude(start: nat, finish: nat) returns (r: Outcome)
      requires Valid() && start < finish
      modifies this, table
      ensures Valid()
      ensures r == Overlap <==> Overlaps(old(table[..entries]), Range(start, finish))
      ensures r == TooMany <==> old(entries) == table.Length && !Overlaps(old(table[..entries]), Range(start, finish))
                                && forall i: nat :: i < old(entries) ==> old(table[i].start) != finish
      ensures r == Done ==>
                forall x: nat :: Covers(table[..entries], x)
                                 <==> Covers(old(table[..entries]), x) || start <= x < finish
      ensures r == Done ==>
                entries == old(entries)
                           + if exists i: nat :: i < old(entries) && old(table[i].start) == finish then 0 else 1
      ensures r != Done ==> table[..] == old(table[..]) && entries == old(entries)
    {
      hide Sorted, Covers, Inserted, Overlaps;
      ghost var s, x := table[..entries], Range(start, finish);
      var next := None;
      if entries > 0 { next := NextExclusion(start); }
      var n := if next.Some? then next.value else entries;
      OverlapAtFirst(s, x, n);
      if next.Some? {
        if table[n].start < finish { return Overlap; }
        if table[n].start == finish {
          Extended(s, x, n);
          table[n] := Range(start, table[n].end);
          assert table[..entries] == s[n := Range(start, s[n].end)];
          return Done;
        }
      }
      forall i: nat | i < entries && s[i].start == finish ensures i == n && next.Some? { AdjoiningIsFirst(s, x, n, i); }
      if entries >= table.Length { return TooMany; }
      InsertedSorted(s, x, n);
      forall a: nat ensures Covers(Inserted(s, n, x), a) <==> Covers(s, a) || Has(x, a) { InsertedCovers(s, x, n, a); }
      Insert(n, Range(start, finish));
      return Done;
    }

    /** Makes room by shifting, and puts the range there. */
    method Insert(n: nat, r: Range)
      requires n <= entries < table.Length
      modifies this, table
      ensures entries == old(entries) + 1 && table[..entries] == Inserted(old(table[..entries]), n, r)
    {
      ghost var s := table[..entries];
      var i := entries;
      while i > n
        invariant n <= i <= entries == |s|
        invariant forall j: nat :: j < i ==> table[j] == s[j]
        invariant forall j: nat :: i < j <= entries ==> table[j] == s[j - 1]
      {
        table[i] := table[i - 1];
        i := i - 1;
      }
      table[n] := r;
      entries := entries + 1;
    }

    /** GC_push_conditional_with_exclusions, with the ranges it pushes in order. */
    method PushWithExclusions(bottom: nat, top: nat) returns (pieces: seq<Range>)
      requires Valid() && entries > 0
      ensures bottom <= top ==> Pieces(table[..entries], bottom, top, pieces)
      ensures bottom > top ==> pieces == []
    {
      pieces := [];
      ghost var s := table[..entries];
      var at := bottom;
      ghost var mid := bottom;
      while at < top
        invariant bottom <= at && Pieces(s, bottom, at, pieces) && (bottom >= top ==> at == bottom && pieces == [])
        invariant bottom <= mid <= at && (bottom <= top ==> mid <= top)
        invariant forall x: nat :: mid <= x < at ==> Covers(s, x)
        invariant forall i: nat :: i < |pieces| ==> pieces[i].end <= mid < at
        decreases top - at
      {
        var next := NextExclusion(at);
        if next.None? || table[next.value].start >= top {
          forall x: nat | at <= x < top ensures !Covers(s, x) {
            GapClear(s, at, if next.Some? then next.value else entries, x);
          }
          PieceAdded(s, bottom, at, top, top, pieces);
          pieces := pieces + [Range(at, top)];
          return;
        }
        var excluded := table[next.value];
        var end := if excluded.start > at then excluded.start else at;
        forall x: nat | at <= x < end ensures !Covers(s, x) { GapClear(s, at, next.value, x); }
        forall x: nat | end <= x < excluded.end ensures Covers(s, x) { assert Has(s[next.value], x); }
        PieceAdded(s, bottom, at, end, excluded.end, pieces);
        if excluded.start > at { pieces := pieces + [Range(at, excluded.start)]; }
        mid := end;
        at := excluded.end;
      }
      if bottom <= top { PiecesCut(s, bottom, mid, top, at, pieces); }
    }
  }
}

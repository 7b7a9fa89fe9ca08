/**
 * The availability calculator: the loop in `slots` (app.py) walks the fixed
 * 60-minute grid from 09:00 to 21:00 and keeps each slot that no confirmed
 * booking reaches under the 15-minute buffer.
 */
module Availability {
  import opened TimeGrid

  const WorkStart: nat := 9 * 60
  const WorkEnd: nat := 21 * 60
  const SlotDur: nat := 60
  const Buffer: nat := 15

  /** A busy interval `[s, e)` of a confirmed booking, in minutes. */
  datatype Interval = Interval(s: int, e: int)

  /**
   * The buffer predicate: `[start, end)` conflicts with `[s, e)` unless one
   * ends at least `Buffer` minutes before the other starts.
   */
  predicate Hits(start: int, end: int, s: int, e: int)
  {
    !(end + Buffer <= s || start >= e + Buffer)
  }

  /** The candidate slot starting at `start` conflicts with some busy interval. */
  predicate Blocked(start: int, busy: seq<Interval>)
  {
    exists i :: 0 <= i < |busy| && Hits(start, start + SlotDur, busy[i].s, busy[i].e)
  }

  /** A start offset of the daily grid: 540 + 60k with the slot ending by 1260. */
  predicate OnGrid(m: int)
  {
    WorkStart <= m && (m - WorkStart) % SlotDur == 0 && m + SlotDur <= WorkEnd
  }

  /** The free grid starts from `start` on, in walking order. */
  function FreeFrom(start: nat, busy: seq<Interval>): (r: seq<nat>)
    ensures forall i :: 0 <= i < |r| ==> r[i] >= start
    decreases WorkEnd - start
  {
    if start + SlotDur > WorkEnd then []
    else (if Blocked(start, busy) then [] else [start]) + FreeFrom(start + SlotDur, busy)
  }

  /** The free grid starts of a day. */
  function FreeStarts(busy: seq<Interval>): seq<nat>
  {
    FreeFrom(WorkStart, busy)
  }

  /** Each start rendered as the range text `slots` returns. */
  function Ranges(starts: seq<nat>): (r: seq<string>)
    ensures |r| == |starts|
  {
    seq(|starts|, i requires 0 <= i < |starts| => MinToRange(starts[i], SlotDur))
  }

  /** Grid starts after `start` on the same grid are at least one slot later. */
  lemma NextGridStart(start: nat, m: int)
    requires WorkStart <= start && (start - WorkStart) % SlotDur == 0
    requires OnGrid(m) && start < m
    ensures start + SlotDur <= m
  {
    assert (m - start) % SlotDur == 0;
  }

  lemma {:induction false} FreeFromMember(start: nat, busy: seq<Interval>, m: int)
    requires WorkStart <= start <= WorkEnd && (start - WorkStart) % SlotDur == 0
    ensures m in FreeFrom(start, busy) <==> (OnGrid(m) && start <= m && !Blocked(m, busy))
    decreases WorkEnd - start
  {
    if start + SlotDur <= WorkEnd {
      FreeFromMember(start + SlotDur, busy, m);
      if OnGrid(m) && start < m {
        NextGridStart(start, m);
      }
    }
  }

  lemma {:induction false} FreeFromAscending(start: nat, busy: seq<Interval>)
    ensures forall i, j :: 0 <= i < j < |FreeFrom(start, busy)| ==> FreeFrom(start, busy)[i] < FreeFrom(start, busy)[j]
    decreases WorkEnd - start
  {
    if start + SlotDur <= WorkEnd {
      FreeFromAscending(start + SlotDur, busy);
    }
  }

  lemma {:induction false} FreeFromCount(start: nat, busy: seq<Interval>)
    requires start <= WorkEnd && (WorkEnd - start) % SlotDur == 0
    ensures |FreeFrom(start, busy)| <= (WorkEnd - start) / SlotDur
    ensures busy == [] ==> |FreeFrom(start, busy)| == (WorkEnd - start) / SlotDur
    decreases WorkEnd - start
  {
    if start + SlotDur <= WorkEnd {
      FreeFromCount(start + SlotDur, busy);
    }
  }

  /** A slot is listed exactly when it is on the grid and no busy interval reaches it. */
  lemma FreeStartsExact(busy: seq<Interval>, m: int)
    ensures m in FreeStarts(busy) <==> OnGrid(m) && !Blocked(m, busy)
  {
    FreeFromMember(WorkStart, busy, m);
  }

  /** The free starts ascend strictly, number at most 12, and are all 12 on an idle day. */
  lemma FreeStartsShape(busy: seq<Interval>)
    ensures forall i, j :: 0 <= i < j < |FreeStarts(busy)| ==> FreeStarts(busy)[i] < FreeStarts(busy)[j]
    ensures |FreeStarts(busy)| <= 12
    ensures busy == [] ==> |FreeStarts(busy)| == 12
  {
    FreeFromAscending(WorkStart, busy);
    FreeFromCount(WorkStart, busy);
  }

  /** A range text is in the rendered list exactly when its start is in the start list. */
  lemma RangesMember(starts: seq<nat>, m: nat)
    ensures MinToRange(m, SlotDur) in Ranges(starts) <==> m in starts
  {
    var r := Ranges(starts);
    if MinToRange(m, SlotDur) in r {
      var k :| 0 <= k < |r| && r[k] == MinToRange(m, SlotDur);
      MinToRangeInjective(m, starts[k], SlotDur);
    }
    if m in starts {
      var k :| 0 <= k < |starts| && starts[k] == m;
      assert r[k] == MinToRange(m, SlotDur);
    }
  }

  lemma RangesAppend(a: seq<nat>, b: seq<nat>)
    ensures Ranges(a + b) == Ranges(a) + Ranges(b)
  {
    var l, r := Ranges(a + b), Ranges(a) + Ranges(b);
    forall k | 0 <= k < |l|
      ensures l[k] == r[k]
    {
      if k < |a| {
        assert (a + b)[k] == a[k];
      } else {
        assert (a + b)[k] == b[k - |a|];
      }
    }
  }

  lemma AppendAssociative<T>(a: seq<T>, b: seq<T>, c: seq<T>)
    ensures a + (b + c) == (a + b) + c
  {
  }

  /** One step of the walk: the range of `start` when it is free, then the rest. */
  lemma RangesStep(start: nat, busy: seq<Interval>)
    requires start + SlotDur <= WorkEnd
    ensures Ranges(FreeFrom(start, busy))
         == (if Blocked(start, busy) then [] else [MinToRange(start, SlotDur)])
            + Ranges(FreeFrom(start + SlotDur, busy))
  {
    var head := if Blocked(start, busy) then [] else [start];
    assert FreeFrom(start, busy) == head + FreeFrom(start + SlotDur, busy);
    RangesAppend(head, FreeFrom(start + SlotDur, busy));
    assert Ranges(head) == if Blocked(start, busy) then [] else [MinToRange(start, SlotDur)];
  }

  /** `any(...)` over the busy intervals, stopping at the first conflict. */
  method AnyConflict(start: int, busy: seq<Interval>) returns (conflict: bool)
    ensures conflict <==> Blocked(start, busy)
  {
    var end := start + SlotDur;
    conflict := false;
    var j := 0;
    while j < |busy| && !conflict
      invariant 0 <= j <= |busy|
      invariant conflict <==> exists i :: 0 <= i < j && Hits(start, end, busy[i].s, busy[i].e)
    {
      conflict := Hits(start, end, busy[j].s, busy[j].e);
      j := j + 1;
    }
  }

  /**
   * The loop of `slots`: every start of the grid in turn, its range appended
   * when no busy interval conflicts with it.
   */
  method Slots(busy: seq<Interval>) returns (out: seq<string>)
    ensures out == Ranges(FreeStarts(busy))
  {
    ghost var all := Ranges(FreeStarts(busy));
    out := [];
    var start: nat := WorkStart;
    while start + SlotDur <= WorkEnd
      invariant WorkStart <= start <= WorkEnd
      invariant all == out + Ranges(FreeFrom(start, busy))
      decreases WorkEnd - start
    {
      var conflict := AnyConflict(start, busy);
      RangesStep(start, busy);
      if !conflict {
        AppendAssociative(out, [MinToRange(start, SlotDur)], Ranges(FreeFrom(start + SlotDur, busy)));
        out := out + [MinToRange(start, SlotDur)];
      }
      start := start + SlotDur;
    }
  }

  /**
   * What `slots` lists: the range of start `m` appears exactly when `m` is a
   * grid start that no busy interval reaches under the buffer.
   */
  lemma SlotListedExactly(busy: seq<Interval>, m: nat)
    ensures MinToRange(m, SlotDur) in Ranges(FreeStarts(busy)) <==> OnGrid(m) && !Blocked(m, busy)
  {
    RangesMember(FreeStarts(busy), m);
    FreeStartsExact(busy, m);
  }
}

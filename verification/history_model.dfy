/** Value-level specification of the focused-cell history: the recorded
    entries, the cursor, the invariant that ties them together and what each
    operation does to them. The class in history.dfy is proved against it. */
module HistoryModel {

  /** Maximum number of entries a history keeps. */
  const Capacity: nat := 20

  datatype Option<T> = None | Some(value: T)

  /** One visited location: a cell and the line focused in it. */
  datatype Entry<Id> = Entry(cellId: Id, line: int)

  /** The state of a history: its entries, oldest first, and the cursor,
      which is -1 when there is no current entry. */
  datatype Snapshot<Id> = Snapshot(entries: seq<Entry<Id>>, index: int)

  function Max(a: int, b: int): (r: int) { if a < b then b else a }

  function Min(a: int, b: int): (r: int) { if a < b then a else b }

  /** Element access as JavaScript does it: `undefined` (None) outside the array. */
  function At<T>(s: seq<T>, i: int): (r: Option<T>)
  {
    if 0 <= i < |s| then Some(s[i]) else None
  }

  /** At most `Capacity` entries, a cursor inside them, and the cursor is -1
      exactly when there are none. */
  predicate Invariant<Id>(h: Snapshot<Id>)
  {
    |h.entries| <= Capacity &&
    -1 <= h.index < |h.entries| &&
    (h.index == -1 <==> h.entries == [])
  }

  /** The entry under the cursor is `e`. */
  predicate AtCurrent<Id(==)>(h: Snapshot<Id>, e: Entry<Id>)
  {
    0 <= h.index < |h.entries| && h.entries[h.index] == e
  }

  /** No two neighbouring entries are equal. */
  predicate NoRepeats<Id(==)>(s: seq<Entry<Id>>)
  {
    forall i :: 0 < i < |s| ==> s[i - 1] != s[i]
  }

  // ---------------------------------------------------------------------
  // Recording a visit

  /** Recording `e`: nothing changes when `e` is the current entry. Otherwise
      the entries after the cursor are dropped, `e` is appended and becomes
      current, and the oldest entry is evicted when that exceeds the capacity. */
  function Saved<Id(==)>(h: Snapshot<Id>, e: Entry<Id>): (r: Snapshot<Id>)
    requires Invariant(h)
    ensures Invariant(r)
    ensures AtCurrent(r, e)
    ensures !AtCurrent(h, e) ==> r.index == |r.entries| - 1
  {
    if AtCurrent(h, e) then h
    else
      var kept := h.entries[..h.index + 1] + [e];
      var entries := if |kept| > Capacity then kept[1..] else kept;
      Snapshot(entries, |entries| - 1)
  }

  /** Recording the same visit twice in a row changes nothing the second time. */
  lemma SavedIdempotent<Id>(h: Snapshot<Id>, e: Entry<Id>)
    requires Invariant(h)
    ensures Saved(Saved(h, e), e) == Saved(h, e)
  {
  }

  /** Recording a visit never puts two equal entries side by side. */
  lemma SavedKeepsNoRepeats<Id>(h: Snapshot<Id>, e: Entry<Id>)
    requires Invariant(h) && NoRepeats(h.entries)
    ensures NoRepeats(Saved(h, e).entries)
  {
  }

  /** The `n` newest elements of `s` (all of them when there are fewer). */
  function Newest<T>(s: seq<T>, n: nat): (r: seq<T>)
    ensures |r| == Min(|s|, n)
  {
    s[|s| - Min(|s|, n)..]
  }

  /** The history left by recording each of `es` in turn, starting empty. */
  function Replay<Id(==)>(es: seq<Entry<Id>>): (h: Snapshot<Id>)
    ensures Invariant(h)
    ensures es != [] ==> AtCurrent(h, es[|es| - 1])
  {
    if es == [] then Snapshot([], -1)
    else Saved(Replay(es[..|es| - 1]), es[|es| - 1])
  }

  /** Recording a new visit with the cursor on the newest entry appends it
      and keeps the `Capacity` newest entries. */
  lemma SavedAtTail<Id>(h: Snapshot<Id>, e: Entry<Id>)
    requires Invariant(h) && h.index == |h.entries| - 1 && !AtCurrent(h, e)
    ensures Saved(h, e).entries == Newest(h.entries + [e], Capacity)
  {
  }

  /** Keeping the `n` newest before or after appending one more element gives
      the same `n` newest. */
  lemma NewestAppend<T>(s: seq<T>, x: T, n: nat)
    requires n > 0
    ensures Newest(Newest(s, n) + [x], n) == Newest(s + [x], n)
  {
  }

  /** `s` with every element that equals the one before it dropped. */
  function Collapse<Id(==)>(s: seq<Entry<Id>>): (r: seq<Entry<Id>>)
    ensures |r| <= |s|
  {
    if s == [] then []
    else
      var p := s[..|s| - 1];
      if p != [] && p[|p| - 1] == s[|s| - 1] then Collapse(p)
      else Collapse(p) + [s[|s| - 1]]
  }

  /** Recording any sequence of visits keeps exactly the `Capacity` newest of
      them once back-to-back repeats are dropped, oldest evicted first, with
      the cursor on the newest. */
  lemma {:induction false} ReplayKeepsNewestCollapsed<Id>(es: seq<Entry<Id>>)
    ensures Replay(es).entries == Newest(Collapse(es), Capacity)
    ensures Replay(es).index == |Replay(es).entries| - 1
  {
    if es != [] {
      var p, e := es[..|es| - 1], es[|es| - 1];
      ReplayKeepsNewestCollapsed(p);
      var h := Replay(p);
      if !(p != [] && p[|p| - 1] == e) {
        assert !AtCurrent(h, e);
        SavedAtTail(h, e);
        NewestAppend(Collapse(p), e, Capacity);
      }
    }
  }

  /** A sequence without back-to-back repeats has nothing to collapse. */
  lemma {:induction false} CollapseNoRepeats<Id>(s: seq<Entry<Id>>)
    requires NoRepeats(s)
    ensures Collapse(s) == s
  {
    if s != [] {
      var p := s[..|s| - 1];
      assert NoRepeats(p) by {
        forall i | 0 < i < |p| ensures p[i - 1] != p[i] {
          assert p[i - 1] == s[i - 1] && p[i] == s[i];
        }
      }
      CollapseNoRepeats(p);
      if p != [] {
        assert p[|p| - 1] == s[|s| - 2];
      }
      assert s == p + [s[|s| - 1]];
    }
  }

  /** Recording visits none of which repeats the one before keeps exactly the
      `Capacity` newest of them, oldest evicted first, with the cursor on the
      newest. */
  lemma {:induction false} ReplayKeepsNewest<Id>(es: seq<Entry<Id>>)
    requires NoRepeats(es)
    ensures Replay(es).entries == Newest(es, Capacity)
    ensures Replay(es).index == |Replay(es).entries| - 1
  {
    ReplayKeepsNewestCollapsed(es);
    CollapseNoRepeats(es);
  }

  // ---------------------------------------------------------------------
  // Forgetting a cell

  /** The entries that do not belong to cell `id`, in their original order. */
  function Filtered<Id(==)>(s: seq<Entry<Id>>, id: Id): (r: seq<Entry<Id>>)
    ensures |r| <= |s|
  {
    if s == [] then []
    else (if s[0].cellId == id then [] else [s[0]]) + Filtered(s[1..], id)
  }

  lemma {:induction false} FilteredAppend<Id>(a: seq<Entry<Id>>, b: seq<Entry<Id>>, id: Id)
    ensures Filtered(a + b, id) == Filtered(a, id) + Filtered(b, id)
  {
    if a == [] {
      assert a + b == b;
    } else {
      assert (a + b)[0] == a[0] && (a + b)[1..] == a[1..] + b;
      FilteredAppend(a[1..], b, id);
    }
  }

  /** Filtering keeps exactly the entries of other cells. */
  lemma {:induction false} FilteredMembers<Id>(s: seq<Entry<Id>>, id: Id)
    ensures forall x :: x in Filtered(s, id) <==> x in s && x.cellId != id
  {
    if s != [] {
      FilteredMembers(s[1..], id);
      assert s == [s[0]] + s[1..];
    }
  }

  /** Filtering out a cell that has no entry leaves the entries as they are. */
  lemma {:induction false} FilteredNothing<Id>(s: seq<Entry<Id>>, id: Id)
    requires forall k :: 0 <= k < |s| ==> s[k].cellId != id
    ensures Filtered(s, id) == s
  {
    if s != [] {
      FilteredNothing(s[1..], id);
      assert s == [s[0]] + s[1..];
    }
  }

  /** A surviving entry lands at the position given by the number of
      surviving entries before it. */
  lemma FilteredAt<Id>(s: seq<Entry<Id>>, id: Id, j: nat)
    requires j < |s| && s[j].cellId != id
    ensures |Filtered(s[..j], id)| < |Filtered(s, id)|
    ensures Filtered(s, id)[|Filtered(s[..j], id)|] == s[j]
  {
    assert s == s[..j] + ([s[j]] + s[j + 1..]);
    FilteredAppend(s[..j], [s[j]] + s[j + 1..], id);
    assert Filtered([s[j]] + s[j + 1..], id) == [s[j]] + Filtered(s[j + 1..], id) by {
      assert ([s[j]] + s[j + 1..])[1..] == s[j + 1..];
    }
  }

  /** Some entry at or before position `i` belongs to another cell than `id`. */
  predicate HasAnchor<Id(==)>(s: seq<Entry<Id>>, i: int, id: Id)
  {
    exists j :: 0 <= j <= i && j < |s| && s[j].cellId != id
  }

  /** The position of the nearest entry at or before `i` that belongs to
      another cell than `id`. */
  function NearestKept<Id(==)>(s: seq<Entry<Id>>, i: int, id: Id): (a: nat)
    requires i < |s| && HasAnchor(s, i, id)
    ensures a <= i && s[a].cellId != id
    ensures forall k :: a < k <= i ==> s[k].cellId == id
    decreases i
  {
    if s[i].cellId != id then i else NearestKept(s, i - 1, id)
  }

  /** Forgetting cell `id`: its entries are removed, and the cursor moves to
      the nearest earlier-or-current entry of another cell, at its new
      position. */
  function Removed<Id(==)>(h: Snapshot<Id>, id: Id): (r: Snapshot<Id>)
    requires Invariant(h) && HasAnchor(h.entries, h.index, id)
    ensures Invariant(r)
  {
    var a := NearestKept(h.entries, h.index, id);
    FilteredAt(h.entries, id, a);
    Snapshot(Filtered(h.entries, id), |Filtered(h.entries[..a], id)|)
  }

  /** Forgetting a cell leaves exactly the entries of the other cells, and the
      cursor on the anchor entry. */
  lemma RemovedKeepsOthers<Id>(h: Snapshot<Id>, id: Id)
    requires Invariant(h) && HasAnchor(h.entries, h.index, id)
    ensures forall x :: x in Removed(h, id).entries <==> x in h.entries && x.cellId != id
    ensures Removed(h, id).entries[Removed(h, id).index] == h.entries[NearestKept(h.entries, h.index, id)]
  {
    FilteredMembers(h.entries, id);
    FilteredAt(h.entries, id, NearestKept(h.entries, h.index, id));
  }

  /** Forgetting a cell that has no entry changes nothing. */
  lemma RemovedNothing<Id>(h: Snapshot<Id>, id: Id)
    requires Invariant(h) && h.entries != []
    requires forall k :: 0 <= k < |h.entries| ==> h.entries[k].cellId != id
    ensures HasAnchor(h.entries, h.index, id)
    ensures Removed(h, id) == h
  {
    assert h.entries[h.index].cellId != id;
    FilteredNothing(h.entries, id);
    FilteredNothing(h.entries[..h.index], id);
  }

  /** Unlike recording, forgetting a cell can put two equal entries side by
      side: visiting A, B, A and forgetting B leaves A, A. */
  lemma RemovedCanRepeat()
    ensures var h := Snapshot([Entry(1, 0), Entry(2, 0), Entry(1, 0)], 2);
      Invariant(h) && NoRepeats(h.entries) && HasAnchor(h.entries, h.index, 2) &&
      Removed(h, 2) == Snapshot([Entry(1, 0), Entry(1, 0)], 1) &&
      !NoRepeats(Removed(h, 2).entries)
  {
    var s := [Entry(1, 0), Entry(2, 0), Entry(1, 0)];
    assert s[2].cellId != 2;
    assert NearestKept(s, 2, 2) == 2;
    assert Filtered(s[..2], 2) == [Entry(1, 0)] by {
      assert s[..2][1..] == [Entry(2, 0)];
    }
    assert Filtered(s, 2) == [Entry(1, 0), Entry(1, 0)] by {
      assert s[1..][1..] == [Entry(1, 0)];
    }
    assert Removed(Snapshot(s, 2), 2).entries[0] == Removed(Snapshot(s, 2), 2).entries[1];
  }

  // ---------------------------------------------------------------------
  // Navigating

  /** A step by `direction` lands on an entry; the clamping at 0 means any
      backward step does while there are entries. */
  predicate CanStep<Id>(h: Snapshot<Id>, direction: int)
  {
    h.entries != [] && h.index + direction < |h.entries|
  }

  /** Stepping by `direction`: when possible, the cursor moves, clamped at 0,
      and the entry now under it is returned; otherwise nothing changes and
      nothing is returned. */
  function Got<Id>(h: Snapshot<Id>, direction: int): (r: (Snapshot<Id>, Option<Entry<Id>>))
    requires Invariant(h)
    ensures Invariant(r.0) && r.0.entries == h.entries
    ensures r.1 == None ==> r.0 == h
    ensures r.1 != None ==> 0 <= r.0.index && r.1 == Some(r.0.entries[r.0.index])
  {
    if CanStep(h, direction) then
      var i := Max(0, h.index + direction);
      (Snapshot(h.entries, i), Some(h.entries[i]))
    else (h, None)
  }

  /** The history after `n` backward steps. */
  function BackTimes<Id>(h: Snapshot<Id>, n: nat): (r: Snapshot<Id>)
    requires Invariant(h)
    ensures Invariant(r) && r.entries == h.entries
    decreases n
  {
    if n == 0 then h else BackTimes(Got(h, -1).0, n - 1)
  }

  /** Backward steps move the cursor one entry at a time and stop at the
      oldest entry, which every further step returns again. */
  lemma {:induction false} BackTimesClamps<Id>(h: Snapshot<Id>, n: nat)
    requires Invariant(h) && h.entries != []
    ensures BackTimes(h, n).index == Max(0, h.index - n)
    ensures h.index <= n ==> Got(BackTimes(h, n), -1) == (BackTimes(h, n), Some(h.entries[0]))
    decreases n
  {
    if n > 0 {
      var g := Got(h, -1).0;
      assert g.index == Max(0, h.index - 1);
      BackTimesClamps(g, n - 1);
    }
  }
}

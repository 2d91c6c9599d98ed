/** The focused-cell history as the editor holds it: an object whose methods
    update its entries and its cursor in place. */
module HistoryStack {
  import opened HistoryModel

  /** A bounded back-navigation stack of visited (cell, line) locations with
      a cursor on the current one. */
  class History<Id(==)> {
    var entries: seq<Entry<Id>>
    var index: int

    /** The value this object currently holds. */
    ghost function State(): Snapshot<Id>
      reads this
    {
      Snapshot(entries, index)
    }

    ghost predicate Valid()
      reads this
    {
      Invariant(State())
    }

    /** A new history is empty and has no current entry. */
    constructor ()
      ensures Valid() && State() == Snapshot([], -1)
    {
      entries := [];
      index := -1;
    }

    /** Records a visit of `line` in cell `cellId`. */
    method SaveCell(cellId: Id, line: int)
      requires Valid()
      modifies this
      ensures Valid()
      ensures State() == Saved(old(State()), Entry(cellId, line))
    {
      if IsTheSameLastEntry(cellId, line) {
        return;
      }
      if At(entries, index + 1).Some? {
        entries := entries[..index + 1];
      }
      entries := entries + [Entry(cellId, line)];
      index := index + 1;
      if |entries| > Capacity {
        entries := entries[1..];
        index := index - 1;
      }
    }

    /** Clears the history. */
    method Destroy()
      modifies this
      ensures Valid() && State() == Snapshot([], -1)
    {
      entries := [];
      index := -1;
    }

    /** Forgets every entry of cell `cellId`. It first finds the nearest entry
        of another cell at or before the cursor, and the cursor ends on it. */
    method RemoveAllFromCell(cellId: Id)
      requires Valid() && HasAnchor(entries, index, cellId)
      modifies this
      ensures Valid()
      ensures State() == Removed(old(State()), cellId)
    {
      ghost var anchor := NearestKept(entries, index, cellId);
      var currentEntryIndex := index;
      var currentEntry := entries[currentEntryIndex];
      while currentEntry.cellId == cellId
        invariant anchor <= currentEntryIndex <= index
        invariant currentEntry == entries[currentEntryIndex]
        decreases currentEntryIndex
      {
        currentEntryIndex := currentEntryIndex - 1;
        currentEntry := entries[currentEntryIndex];
      }
      assert currentEntryIndex == anchor;
      var before := entries[..currentEntryIndex];
      entries := Filtered(entries, cellId);
      // The anchor is a distinct object, so its position among the
      // survivors is the number of survivors that precede it.
      index := |Filtered(before, cellId)|;
      assert State() == Removed(old(State()), cellId);
    }

    /** Whether going back would land on an entry. */
    function CanGoBack(): (r: bool)
      reads this
      ensures Valid() ==> (r <==> entries != [])
    {
      CanGetFromHistory(-1)
    }

    /** Goes back one entry, staying on the oldest one, and returns the entry
        now current; returns None and changes nothing when that is impossible. */
    method GoBack() returns (r: Option<Entry<Id>>)
      requires Valid()
      modifies this
      ensures Valid()
      ensures (State(), r) == Got(old(State()), -1)
    {
      r := GetFromHistory(-1);
    }

    /** Moves the cursor by `direction`, clamped at 0, and returns the entry
        now current, or returns None and changes nothing. */
    method GetFromHistory(direction: int) returns (r: Option<Entry<Id>>)
      requires Valid()
      modifies this
      ensures Valid()
      ensures (State(), r) == Got(old(State()), direction)
    {
      if !CanGetFromHistory(direction) {
        return None;
      }
      index := Max(0, index + direction);
      r := At(entries, index);
    }

    /** Whether a move by `direction` would land on an entry. */
    function CanGetFromHistory(direction: int): (r: bool)
      reads this
      ensures Valid() ==> (r <==> CanStep(State(), direction))
    {
      if index == -1 then false
      else if |entries| == 0 then false
      else At(entries, Max(0, index + direction)).Some?
    }

    /** Whether the current entry is the visit (`cellId`, `line`). */
    function IsTheSameLastEntry(cellId: Id, line: int): (r: bool)
      reads this
      ensures r <==> AtCurrent(State(), Entry(cellId, line))
    {
      match At(entries, index)
      case None => false
      case Some(last) => cellId == last.cellId && line == last.line
    }
  }

  /** Going back and then recording a new visit drops the entry that was
      ahead of the cursor. */
  method BranchTruncationClient()
  {
    var h := new History<string>();
    h.SaveCell("A", 1);
    h.SaveCell("A", 2);
    var back := h.GoBack();
    assert back == Some(Entry("A", 1));
    h.SaveCell("A", 3);
    assert h.entries == [Entry("A", 1), Entry("A", 3)];
    assert h.CanGoBack();
  }

  /** Forgetting the cell of the current entry moves the cursor to the
      nearest earlier entry of another cell. */
  method ForgetClient()
  {
    var h := new History<string>();
    assert !h.CanGoBack();
    h.SaveCell("A", 1);
    h.SaveCell("B", 1);
    h.SaveCell("A", 2);
    ghost var visited := h.entries;
    assert visited == [Entry("A", 1), Entry("B", 1), Entry("A", 2)];
    assert visited[1].cellId != "A";
    h.RemoveAllFromCell("A");
    assert NearestKept(visited, 2, "A") == 1;
    assert Filtered(visited[2..], "A") == [] by {
      assert visited[2..][1..] == [];
    }
    assert Filtered(visited[1..], "A") == [Entry("B", 1)] by {
      assert visited[1..][1..] == visited[2..];
    }
    assert Filtered(visited[..1], "A") == [] by {
      assert visited[..1][1..] == [];
    }
    assert h.entries == [Entry("B", 1)] && h.index == 0;
    h.Destroy();
    assert !h.CanGoBack();
  }
}

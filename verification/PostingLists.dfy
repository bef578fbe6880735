/** Intersection of posting lists with jump search
    (projects/indexer/src/index_struct.cpp). */
module PostingLists {
  import opened Options

  /** One document of a token's posting list. */
  datatype Entry = Entry(docIdOffset: nat, posting: int)

  // The entries of one document in some of the lists.
  type Row = r: seq<Entry> | r != [] witness [Entry(0, 0)]

  ghost predicate Ascending(vec: seq<Entry>) {
    forall i, j :: 0 <= i < j < |vec| ==> vec[i].docIdOffset < vec[j].docIdOffset
  }

  // The documents of the rows ascend.
  ghost predicate RowsAscend(rows: seq<Row>) {
    forall i, j :: 0 <= i < j < |rows| ==> rows[i][0].docIdOffset < rows[j][0].docIdOffset
  }

  /** The least index from pos on whose document is at or after the given one;
      None, for the exception, exactly when there is none. */
  method Jump(vec: seq<Entry>, doc: nat, start: nat, step: nat) returns (r: Option<nat>)
    requires Ascending(vec) && start < |vec| && step >= 1
    ensures r.Some? ==> start <= r.value < |vec| && vec[r.value].docIdOffset >= doc
    ensures r.Some? ==> forall i :: start <= i < r.value ==> vec[i].docIdOffset < doc
    ensures r.None? <==> forall i :: start <= i < |vec| ==> vec[i].docIdOffset < doc
  {
    var pos := start;
    var nextPos := if pos + step < |vec| - 1 then pos + step else |vec| - 1;
    while nextPos < |vec| && vec[nextPos].docIdOffset <= doc
      invariant start <= pos < |vec| && pos <= nextPos
      invariant nextPos == |vec| - 1 || nextPos == pos + step
      invariant pos > start ==> vec[pos].docIdOffset <= doc
      decreases |vec| + step - nextPos
    {
      pos := nextPos;
      nextPos := nextPos + step;
    }
    nextPos := if nextPos < |vec| - 1 then nextPos else |vec| - 1;
    ghost var from := pos;
    if vec[nextPos].docIdOffset >= doc {
      while pos < nextPos && vec[pos].docIdOffset < doc
        invariant from <= pos <= nextPos
        invariant forall i :: from <= i < pos ==> vec[i].docIdOffset < doc
      {
        pos := pos + 1;
      }
    }
    if vec[pos].docIdOffset < doc {
      return None;
    }
    return Some(pos);
  }

  /* ---- joining rows with one more list ---- */

  /** The list's entry for a document. */
  function Find(vec: seq<Entry>, doc: nat): (r: Option<Entry>)
    ensures r.Some? ==> r.value in vec && r.value.docIdOffset == doc
    ensures r.None? ==> forall e :: e in vec ==> e.docIdOffset != doc
  {
    if vec == [] then None
    else if vec[|vec| - 1].docIdOffset == doc then Some(vec[|vec| - 1])
    else Find(vec[..|vec| - 1], doc)
  }

  /** The reference: each row whose document the list has, with the list's entry. */
  function Joined(rows: seq<Row>, entries: seq<Entry>): seq<Row>
  {
    if rows == [] then []
    else
      var last := rows[|rows| - 1];
      var e := Find(entries, last[0].docIdOffset);
      Joined(rows[..|rows| - 1], entries) + if e.Some? then [last + [e.value]] else []
  }

  // Rows whose documents the list does not have add nothing.
  lemma {:induction false} JoinedSkips(rows: seq<Row>, entries: seq<Entry>, i: nat, j: nat)
    requires i <= j <= |rows|
    requires forall k, e :: i <= k < j && e in entries ==> e.docIdOffset != rows[k][0].docIdOffset
    ensures Joined(rows[..j], entries) == Joined(rows[..i], entries)
    decreases j
  {
    if i < j {
      assert rows[..j][..j - 1] == rows[..j - 1];
      JoinedSkips(rows, entries, i, j - 1);
    }
  }

  lemma JoinedAdds(rows: seq<Row>, entries: seq<Entry>, i: nat, e: Entry)
    requires i < |rows|
    requires Ascending(entries) && e in entries && e.docIdOffset == rows[i][0].docIdOffset
    ensures Joined(rows[..i + 1], entries) == Joined(rows[..i], entries) + [rows[i] + [e]]
  {
    assert rows[..i + 1][..i] == rows[..i];
    var found := Find(entries, e.docIdOffset);
    var a :| 0 <= a < |entries| && entries[a] == e;
    var b :| 0 <= b < |entries| && entries[b] == found.value;
    assert a == b;
  }

  /** Rows and list walked side by side, each jumping past what the other does not
      have. */
  method IntersectMore(common: seq<Row>, entries: seq<Entry>, before: seq<Row>, step: nat) returns (res: seq<Row>)
    requires RowsAscend(common) && Ascending(entries) && step >= 1
    ensures res == before + Joined(common, entries)
  {
    hide Joined;
    res := before;
    var v1: seq<Entry> := seq(|common|, i requires 0 <= i < |common| => common[i][0]);
    var v2 := entries;
    JoinedNone(entries);
    assert common[..|common|] == common;
    if v1 == [] || v2 == [] {
      JoinedSkips(common, entries, 0, |common|);
      assert common[..0] == [];
      return;
    }
    var i1: nat, i2: nat := 0, 0;
    assert common[..0] == [] && before + [] == before;
    while true
      invariant i1 < |v1| && i2 < |v2|
      invariant res == before + Joined(common[..i1], entries)
      invariant forall a :: 0 <= a < i2 ==> v2[a].docIdOffset < v1[i1].docIdOffset
      decreases |v1| - i1 + |v2| - i2
    {
      if v1[i1].docIdOffset < v2[i2].docIdOffset {
        var j := Jump(v1, v2[i2].docIdOffset, i1, step);
        var to := if j.Some? then j.value else |v1|;
        forall k, e | i1 <= k < to && e in entries
          ensures e.docIdOffset != common[k][0].docIdOffset
        {
          var a :| 0 <= a < |v2| && v2[a] == e;
          assert v1[i1].docIdOffset <= v1[k].docIdOffset < v2[i2].docIdOffset;
        }
        JoinedSkips(common, entries, i1, to);
        if j.None? {
          return;
        }
        i1 := to;
      } else if v1[i1].docIdOffset > v2[i2].docIdOffset {
        var j := Jump(v2, v1[i1].docIdOffset, i2, step);
        if j.None? {
          JoinedSkips(common, entries, i1, |v1|);
          return;
        }
        i2 := j.value;
      } else {
        JoinedAdds(common, entries, i1, v2[i2]);
        res := res + [common[i1] + [v2[i2]]];
        i1, i2 := i1 + 1, i2 + 1;
        if i1 == |v1| || i2 == |v2| {
          JoinedSkips(common, entries, i1, |v1|);
          return;
        }
      }
    }
  }

  lemma JoinedNone(entries: seq<Entry>)
    ensures Joined([], entries) == []
  {
  }

  /* ---- all lists ---- */

  function Singles(vec: seq<Entry>): (r: seq<Row>)
  {
    seq(|vec|, i requires 0 <= i < |vec| => [vec[i]])
  }

  /** The reference for several lists: joined one after the other. */
  function JoinAll(lists: seq<seq<Entry>>): (r: seq<Row>)
    requires lists != []
  {
    if |lists| == 1 then Singles(lists[0])
    else
      var rows := JoinAll(lists[..|lists| - 1]);
      Joined(rows, lists[|lists| - 1])
  }

  // r is one of the rows with the list's entry for its document.
  ghost predicate IsJoined(rows: seq<Row>, entries: seq<Entry>, r: Row) {
    |r| > 1 && r[..|r| - 1] in rows && r[|r| - 1] in entries && r[|r| - 1].docIdOffset == r[0].docIdOffset
  }

  lemma {:induction false} JoinedRows(rows: seq<Row>, entries: seq<Entry>, r: Row)
    requires r in Joined(rows, entries)
    ensures IsJoined(rows, entries, r)
  {
    var n := |rows| - 1;
    if r in Joined(rows[..n], entries) {
      JoinedRows(rows[..n], entries, r);
    } else {
      assert r[..|r| - 1] == rows[n];
    }
  }

  // Every row whose document the list has is in the join.
  lemma {:induction false} JoinedHas(rows: seq<Row>, entries: seq<Entry>, row: Row, e: Entry)
    requires Ascending(entries)
    requires row in rows && e in entries && e.docIdOffset == row[0].docIdOffset
    ensures row + [e] in Joined(rows, entries)
  {
    var n := |rows| - 1;
    if row in rows[..n] {
      JoinedHas(rows[..n], entries, row, e);
    } else {
      assert rows[..n + 1] == rows;
      JoinedAdds(rows, entries, n, e);
    }
  }

  lemma {:induction false} JoinedAscends(rows: seq<Row>, entries: seq<Entry>)
    requires RowsAscend(rows)
    ensures RowsAscend(Joined(rows, entries))
    ensures forall r: Row :: r in Joined(rows, entries) ==> rows != [] && r[0].docIdOffset <= rows[|rows| - 1][0].docIdOffset
  {
    if rows != [] {
      var n := |rows| - 1;
      JoinedAscends(rows[..n], entries);
      forall r: Row | r in Joined(rows[..n], entries)
        ensures r[0].docIdOffset < rows[n][0].docIdOffset
      {
        JoinedRows(rows[..n], entries, r);
        assert r[..|r| - 1] in rows[..n] && r[..|r| - 1][0] == r[0];
      }
    }
  }

  /** The ping-pong between the output and a temporary. */
  method IntersectEntries(input: seq<seq<Entry>>) returns (output: seq<Row>)
    requires forall l :: l in input ==> Ascending(l)
    ensures output == if input == [] then [] else JoinAll(input)
  {
    hide Joined;
    output := [];
    if input == [] {
      return;
    }
    var step := 100;
    output := Singles(input[0]);
    var tmp: seq<Row> := [];
    assert input[..1] == [input[0]];
    for i := 1 to |input|
      invariant (if i % 2 == 1 then output else tmp) == JoinAll(input[..i])
    {
      assert input[..i + 1][..i] == input[..i];
      JoinAllAscends(input[..i]);
      assert input[i] in input;
      if i % 2 == 1 {
        tmp := IntersectMore(output, input[i], [], step);
      } else {
        output := IntersectMore(tmp, input[i], [], step);
      }
      assert [] + Joined(JoinAll(input[..i]), input[i]) == Joined(JoinAll(input[..i]), input[i]);
    }
    assert input[..|input|] == input;
    if |input| % 2 == 0 {
      output := tmp;
    }
  }

  lemma {:induction false} JoinAllAscends(lists: seq<seq<Entry>>)
    requires lists != [] && forall l :: l in lists ==> Ascending(l)
    ensures RowsAscend(JoinAll(lists))
  {
    if |lists| == 1 {
      assert lists[0] in lists;
    } else {
      JoinAllAscends(lists[..|lists| - 1]);
      JoinedAscends(JoinAll(lists[..|lists| - 1]), lists[|lists| - 1]);
    }
  }

  // The row lists the entry of one document in every list.
  ghost predicate IsRow(lists: seq<seq<Entry>>, row: Row) {
    && |row| == |lists|
    && forall j :: 0 <= j < |lists| ==> row[j] in lists[j] && row[j].docIdOffset == row[0].docIdOffset
  }

  lemma OneList(list: seq<Entry>, row: Row)
    ensures row in Singles(list) <==> IsRow([list], row)
  {
    if row in Singles(list) {
      var i :| 0 <= i < |list| && row == [list[i]];
    }
    if IsRow([list], row) {
      assert row[0] in [list][0];
      var i :| 0 <= i < |list| && list[i] == row[0];
      assert row == [row[0]] && Singles(list)[i] == row;
    }
  }

  lemma RowWithLast(lists: seq<seq<Entry>>, last: seq<Entry>, row: Row)
    requires |row| > 1
    ensures IsRow(lists + [last], row) <==>
      && IsRow(lists, row[..|row| - 1])
      && row[|row| - 1] in last && row[|row| - 1].docIdOffset == row[0].docIdOffset
  {
    var front := row[..|row| - 1];
    if IsRow(lists + [last], row) {
      assert forall j :: 0 <= j < |lists| ==> front[j] == row[j] && (lists + [last])[j] == lists[j];
      assert (lists + [last])[|lists|] == last;
    }
  }

  /** The intersection is exact: its rows ascend by document, so there is one row
      per document, and they are precisely the rows that list one document's
      entries in all lists. */
  lemma {:induction false} IntersectionIsExact(lists: seq<seq<Entry>>, row: Row)
    requires lists != [] && forall l :: l in lists ==> Ascending(l)
    ensures RowsAscend(JoinAll(lists))
    ensures row in JoinAll(lists) <==> IsRow(lists, row)
    decreases |lists|
  {
    hide Joined;
    JoinAllAscends(lists);
    var n := |lists| - 1;
    if n == 0 {
      OneList(lists[0], row);
      assert lists == [lists[0]];
    } else {
      var rows, last := JoinAll(lists[..n]), lists[n];
      assert lists == lists[..n] + [last];
      if row in JoinAll(lists) {
        JoinedRows(rows, last, row);
      }
      if |row| > 1 {
        IntersectionIsExact(lists[..n], row[..|row| - 1]);
        RowWithLast(lists[..n], last, row);
        if IsRow(lists, row) {
          assert last in lists;
          JoinedHas(rows, last, row[..|row| - 1], row[|row| - 1]);
          assert row == row[..|row| - 1] + [row[|row| - 1]];
        }
      }
    }
  }
}

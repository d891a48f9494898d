/**
 * The duplicate-address errors of `RegisterMap.validate`: a row gets one
 * exactly when its integer address is shared with another row.
 */
module DuplicateProofs {
  import opened Wrappers
  import opened Sorting
  import opened Grouping
  import opened Validation

  /** Row `i`'s address is an integer that some other row also has. */
  predicate SharedAddress(addrs: seq<Option<int>>, i: int)
    requires 0 <= i < |addrs|
  {
    addrs[i].Some? && exists j :: 0 <= j < |addrs| && j != i && addrs[j] == addrs[i]
  }

  lemma {:induction false} DuplicateRunShape(a: int, rows: seq<int>)
    ensures forall p :: 0 <= p < |rows| ==> DuplicateRun(a, rows)[p] == DuplicateIssue(a, rows[p])
    decreases |rows|
  {
    if |rows| > 0 {
      DuplicateRunShape(a, rows[1..]);
    }
  }

  /** With no row repeated, a row in the run is counted once and any other row not at all. */
  lemma {:induction false} DuplicateRunCount(a: int, rows: seq<int>, row: int)
    requires Increasing(rows)
    ensures Count(DuplicateRun(a, rows), 5, row) == if row in rows then 1 else 0
    decreases |rows|
  {
    if |rows| > 0 {
      var rest := DuplicateRun(a, rows[1..]);
      assert DuplicateRun(a, rows) == [DuplicateIssue(a, rows[0])] + rest;
      CountAppend([DuplicateIssue(a, rows[0])], rest, 5, row);
      DuplicateRunCount(a, rows[1..], row);
      assert row in rows <==> row == rows[0] || row in rows[1..];
      if row == rows[0] {
        assert row !in rows[1..];
      }
    }
  }

  /** A row not in the run is not counted. */
  lemma {:induction false} DuplicateRunAbsent(a: int, rows: seq<int>, row: int)
    requires row !in rows
    ensures Count(DuplicateRun(a, rows), 5, row) == 0
    decreases |rows|
  {
    if |rows| > 0 {
      assert rows == [rows[0]] + rows[1..];
      DuplicateRunAbsent(a, rows[1..], row);
    }
  }

  /** Every duplicate error is the error of some key for one of its rows, and
      that key has more than one row. */
  lemma {:induction false} DuplicateIssuesShape(gs: seq<AddressGroup>)
    ensures forall p :: 0 <= p < |DuplicateIssues(gs)| ==>
      var x := DuplicateIssues(gs)[p];
      x.message.DuplicateAddress? && x.rowIndex.Some? &&
      x == DuplicateIssue(x.message.address, x.rowIndex.value) &&
      exists j :: 0 <= j < |gs| && gs[j].address == x.message.address &&
        x.rowIndex.value in gs[j].rows && |gs[j].rows| > 1
    decreases |gs|
  {
    if |gs| > 0 {
      var head := GroupDuplicates(gs[0]);
      var tail := DuplicateIssues(gs[1..]);
      var d := head + tail;
      DuplicateIssuesShape(gs[1..]);
      DuplicateRunShape(gs[0].address, gs[0].rows);
      forall p | 0 <= p < |d|
        ensures var x := d[p];
          x.message.DuplicateAddress? && x.rowIndex.Some? &&
          x == DuplicateIssue(x.message.address, x.rowIndex.value) &&
          exists j :: 0 <= j < |gs| && gs[j].address == x.message.address &&
            x.rowIndex.value in gs[j].rows && |gs[j].rows| > 1
      {
        if p < |head| {
          assert d[p] == DuplicateIssue(gs[0].address, gs[0].rows[p]);
          assert gs[0].rows[p] in gs[0].rows;
        } else {
          var x := tail[p - |head|];
          assert d[p] == x;
          var j :| 0 <= j < |gs[1..]| && gs[1..][j].address == x.message.address &&
            x.rowIndex.value in gs[1..][j].rows && |gs[1..][j].rows| > 1;
          assert gs[j + 1] == gs[1..][j];
        }
      }
    }
  }

  /** A row in no key with more than one row gets no duplicate error. */
  lemma {:induction false} DuplicateIssuesNone(gs: seq<AddressGroup>, row: int)
    requires forall j :: 0 <= j < |gs| && |gs[j].rows| > 1 ==> row !in gs[j].rows
    ensures Count(DuplicateIssues(gs), 5, row) == 0
    decreases |gs|
  {
    if |gs| > 0 {
      CountAppend(GroupDuplicates(gs[0]), DuplicateIssues(gs[1..]), 5, row);
      if |gs[0].rows| > 1 {
        DuplicateRunAbsent(gs[0].address, gs[0].rows, row);
      }
      DuplicateIssuesNone(gs[1..], row);
    }
  }

  /** A row in exactly one key gets one duplicate error when that key has
      more than one row and none otherwise. */
  lemma {:induction false} DuplicateIssuesOne(gs: seq<AddressGroup>, row: int, j: int)
    requires 0 <= j < |gs| && row in gs[j].rows && Increasing(gs[j].rows)
    requires forall k :: 0 <= k < |gs| && k != j ==> row !in gs[k].rows
    ensures Count(DuplicateIssues(gs), 5, row) == if |gs[j].rows| > 1 then 1 else 0
    decreases |gs|
  {
    CountAppend(GroupDuplicates(gs[0]), DuplicateIssues(gs[1..]), 5, row);
    if j == 0 {
      if |gs[0].rows| > 1 {
        DuplicateRunCount(gs[0].address, gs[0].rows, row);
      }
      DuplicateIssuesNone(gs[1..], row);
    } else {
      assert row !in gs[0].rows;
      if |gs[0].rows| > 1 {
        DuplicateRunAbsent(gs[0].address, gs[0].rows, row);
      }
      DuplicateIssuesOne(gs[1..], row, j - 1);
    }
  }

  /** An increasing sequence holding `x` is longer than one exactly when it
      holds another value. */
  lemma MoreThanOne(rs: seq<int>, x: int)
    requires Increasing(rs) && x in rs
    ensures |rs| > 1 <==> exists y :: y in rs && y != x
  {
    if |rs| > 1 {
      assert rs[0] < rs[1];
      var y := if rs[0] == x then rs[1] else rs[0];
      assert y in rs && y != x;
    }
  }

  /** The same statement for any increasing list of exactly the rows that
      share row `i`'s address. */
  lemma SharedFromRows(addrs: seq<Option<int>>, i: int, rs: seq<int>)
    requires 0 <= i < |addrs| && addrs[i].Some?
    requires forall x :: x in rs <==> 2 <= x < |addrs| + 2 && addrs[x - 2] == addrs[i]
    requires Increasing(rs)
    ensures |rs| > 1 <==> SharedAddress(addrs, i)
  {
    assert i + 2 in rs;
    MoreThanOne(rs, i + 2);
    if |rs| > 1 {
      var y :| y in rs && y != i + 2;
      assert 0 <= y - 2 < |addrs| && y - 2 != i && addrs[y - 2] == addrs[i];
    }
    if SharedAddress(addrs, i) {
      var j :| 0 <= j < |addrs| && j != i && addrs[j] == addrs[i];
      assert j + 2 in rs;
    }
  }

  /** A valid address has more than one row exactly when another row shares it. */
  lemma RowsWithShared(addrs: seq<Option<int>>, i: int)
    requires 0 <= i < |addrs| && addrs[i].Some?
    ensures |RowsWith(addrs, addrs[i].value)| > 1 <==> SharedAddress(addrs, i)
  {
    SharedFromRows(addrs, i, RowsWith(addrs, addrs[i].value));
  }

  /** Row `i + 2` gets one duplicate error when its address is shared and none otherwise. */
  lemma DuplicateCount(addrs: seq<Option<int>>, i: int)
    requires 0 <= i < |addrs|
    ensures Count(DuplicateIssues(GroupRows(addrs)), 5, i + 2) == if SharedAddress(addrs, i) then 1 else 0
  {
    var gs := GroupRows(addrs);
    var row := i + 2;
    forall k | 0 <= k < |gs|
      ensures row in gs[k].rows <==> addrs[i] == Some(gs[k].address)
      ensures Increasing(gs[k].rows)
    {
      GroupRowsRows(addrs, k);
    }
    match addrs[i]
    case None =>
      DuplicateIssuesNone(gs, row);
    case Some(a) =>
      assert addrs[i] in addrs;
      GroupRowsKeys(addrs, a);
      var j :| 0 <= j < |gs| && gs[j].address == a;
      forall k | 0 <= k < |gs| && k != j
        ensures row !in gs[k].rows
      {
        assert gs[k].address != a;
      }
      DuplicateIssuesOne(gs, row, j);
      GroupRowsRows(addrs, j);
      RowsWithShared(addrs, i);
  }

  /** Where a duplicate error comes from: key `j`, which has more than one
      row, and its `m`-th row. */
  lemma {:induction false} DuplicateIssueSource(gs: seq<AddressGroup>, q: int) returns (j: int, m: int)
    requires 0 <= q < |DuplicateIssues(gs)|
    ensures 0 <= j < |gs| && |gs[j].rows| > 1 && 0 <= m < |gs[j].rows|
    ensures DuplicateIssues(gs)[q] == DuplicateIssue(gs[j].address, gs[j].rows[m])
    decreases |gs|
  {
    var head := GroupDuplicates(gs[0]);
    var tail := DuplicateIssues(gs[1..]);
    assert DuplicateIssues(gs) == head + tail;
    if q < |head| {
      DuplicateRunShape(gs[0].address, gs[0].rows);
      j, m := 0, q;
    } else {
      var j', m' := DuplicateIssueSource(gs[1..], q - |head|);
      j, m := j' + 1, m';
    }
  }

  /** `x` is the duplicate error of a row of the table whose valid address,
      shared with another row, it names. */
  predicate ProperDuplicate(addrs: seq<Option<int>>, x: ValidationIssue) {
    && x.message.DuplicateAddress? && x.rowIndex.Some?
    && x == DuplicateIssue(x.message.address, x.rowIndex.value)
    && 2 <= x.rowIndex.value < |addrs| + 2
    && addrs[x.rowIndex.value - 2] == Some(x.message.address)
    && SharedAddress(addrs, x.rowIndex.value - 2)
  }

  /** Each duplicate error names a valid address shared with another row and
      a row that has that address. */
  lemma DuplicateIssueFacts(addrs: seq<Option<int>>, q: int)
    requires 0 <= q < |DuplicateIssues(GroupRows(addrs))|
    ensures ProperDuplicate(addrs, DuplicateIssues(GroupRows(addrs))[q])
  {
    var gs := GroupRows(addrs);
    var j, m := DuplicateIssueSource(gs, q);
    GroupRowsRows(addrs, j);
    ProperFromRows(addrs, gs[j].address, gs[j].rows, m);
  }

  /** The error for any row of an address that more than one row has is a
      proper duplicate error. */
  lemma ProperFromRows(addrs: seq<Option<int>>, a: int, rs: seq<int>, m: int)
    requires rs == RowsWith(addrs, a) && |rs| > 1 && 0 <= m < |rs|
    ensures ProperDuplicate(addrs, DuplicateIssue(a, rs[m]))
  {
    var row := rs[m];
    assert row in rs;
    RowsWithShared(addrs, row - 2);
  }

  // ---------------------------------------------------------------------------
  // Order of the duplicate errors
  // ---------------------------------------------------------------------------

  /** Duplicate error `x` comes before `y` in dictionary order: they share the
      key and `x` has the earlier row, or `x`'s key is an earlier key of `gs`. */
  predicate KeyOrdered(gs: seq<AddressGroup>, x: ValidationIssue, y: ValidationIssue) {
    && x.message.DuplicateAddress? && y.message.DuplicateAddress?
    && x.rowIndex.Some? && y.rowIndex.Some?
    && (|| (x.message.address == y.message.address && x.rowIndex.value < y.rowIndex.value)
        || exists j, k :: 0 <= j < k < |gs| && gs[j].address == x.message.address && gs[k].address == y.message.address)
  }

  /** The duplicate errors of a key whose rows ascend are in row order. */
  lemma DuplicateRunOrdered(gs: seq<AddressGroup>, p: int, q: int)
    requires |gs| > 0 && Increasing(gs[0].rows)
    requires 0 <= p < q < |GroupDuplicates(gs[0])|
    ensures KeyOrdered(gs, GroupDuplicates(gs[0])[p], GroupDuplicates(gs[0])[q])
  {
    DuplicateRunShape(gs[0].address, gs[0].rows);
  }

  /** An error of the first key comes before every error of a later key. */
  lemma DuplicateHeadFirst(gs: seq<AddressGroup>, p: int, q: int)
    requires |gs| > 0 && DistinctKeys(gs)
    requires 0 <= p < |GroupDuplicates(gs[0])| && 0 <= q < |DuplicateIssues(gs[1..])|
    ensures KeyOrdered(gs, GroupDuplicates(gs[0])[p], DuplicateIssues(gs[1..])[q])
  {
    DuplicateRunShape(gs[0].address, gs[0].rows);
    var j', m' := DuplicateIssueSource(gs[1..], q);
    assert gs[j' + 1] == gs[1..][j'];
  }

  /** Order among the later keys carries over to the whole dictionary. */
  lemma KeyOrderedTail(gs: seq<AddressGroup>, x: ValidationIssue, y: ValidationIssue)
    requires |gs| > 0 && KeyOrdered(gs[1..], x, y)
    ensures KeyOrdered(gs, x, y)
  {
    if x.message.address != y.message.address || x.rowIndex.value >= y.rowIndex.value {
      var j, k :| 0 <= j < k < |gs[1..]| && gs[1..][j].address == x.message.address && gs[1..][k].address == y.message.address;
      assert gs[j + 1] == gs[1..][j] && gs[k + 1] == gs[1..][k];
    }
  }

  /** The duplicate errors follow the dictionary: key by key, and row by row
      within a key. */
  lemma {:induction false} DuplicateIssuesOrdered(gs: seq<AddressGroup>)
    requires DistinctKeys(gs)
    requires forall j :: 0 <= j < |gs| ==> Increasing(gs[j].rows)
    ensures forall p, q :: 0 <= p < q < |DuplicateIssues(gs)| ==>
      KeyOrdered(gs, DuplicateIssues(gs)[p], DuplicateIssues(gs)[q])
    decreases |gs|
  {
    if |gs| > 0 {
      var head := GroupDuplicates(gs[0]);
      var tail := DuplicateIssues(gs[1..]);
      var d := head + tail;
      assert DuplicateIssues(gs) == d;
      DuplicateIssuesOrdered(gs[1..]);
      forall p, q | 0 <= p < q < |d|
        ensures KeyOrdered(gs, d[p], d[q])
      {
        if q < |head| {
          DuplicateRunOrdered(gs, p, q);
        } else if p < |head| {
          DuplicateHeadFirst(gs, p, q - |head|);
        } else {
          assert d[p] == tail[p - |head|] && d[q] == tail[q - |head|];
          KeyOrderedTail(gs, d[p], d[q]);
        }
      }
    }
  }

  /** Scanning the rows from the top, address `a` turns up before any row
      has address `b`. */
  predicate SeenBefore(addrs: seq<Option<int>>, a: int, b: int)
    decreases |addrs|
  {
    && |addrs| > 0 && addrs[0] != Some(b)
    && (addrs[0] == Some(a) || SeenBefore(addrs[1..], a, b))
  }

  /** A row with `a` at position `i`, with no row up to it having `b`, means
      `a` is seen before `b`. */
  lemma {:induction false} SeenBeforeAt(addrs: seq<Option<int>>, a: int, b: int, i: int)
    requires 0 <= i < |addrs| && addrs[i] == Some(a)
    requires forall i' :: 0 <= i' <= i ==> addrs[i'] != Some(b)
    ensures SeenBefore(addrs, a, b)
    decreases i
  {
    if addrs[0] != Some(a) {
      assert addrs[1..][i - 1] == addrs[i];
      SeenBeforeAt(addrs[1..], a, b, i - 1);
    }
  }

  /** The first element of an ascending sequence is its least. */
  lemma IncreasingFirst(rs: seq<int>, x: int)
    requires Increasing(rs) && x in rs
    ensures rs[0] <= x
  {
  }

  /** When the first row with `a` comes before the first row with `b`, `a`
      is seen before `b`. */
  lemma FirstRowsSeenBefore(addrs: seq<Option<int>>, a: int, b: int)
    requires |RowsWith(addrs, a)| > 0 && |RowsWith(addrs, b)| > 0
    requires RowsWith(addrs, a)[0] < RowsWith(addrs, b)[0]
    ensures SeenBefore(addrs, a, b)
  {
    var ra := RowsWith(addrs, a);
    var rb := RowsWith(addrs, b);
    var i := ra[0] - 2;
    assert ra[0] in ra;
    forall i' | 0 <= i' <= i
      ensures addrs[i'] != Some(b)
    {
      FirstRowLeast(addrs, b, i' + 2);
    }
    SeenBeforeAt(addrs, a, b, i);
  }

  /** No row with address `b` comes before the first one. */
  lemma FirstRowLeast(addrs: seq<Option<int>>, b: int, x: int)
    requires |RowsWith(addrs, b)| > 0 && 2 <= x < |addrs| + 2
    ensures addrs[x - 2] == Some(b) ==> RowsWith(addrs, b)[0] <= x
  {
    if addrs[x - 2] == Some(b) {
      IncreasingFirst(RowsWith(addrs, b), x);
    }
  }

  /** An earlier key of the dictionary is an address seen before a later key. */
  lemma EarlierKeySeenBefore(addrs: seq<Option<int>>, j: int, k: int)
    requires 0 <= j < k < |GroupRows(addrs)|
    ensures SeenBefore(addrs, GroupRows(addrs)[j].address, GroupRows(addrs)[k].address)
  {
    var gs := GroupRows(addrs);
    GroupRowsFirstSeen(addrs, j, k);
    GroupRowsRows(addrs, j);
    GroupRowsRows(addrs, k);
    FirstRowsSeenBefore(addrs, gs[j].address, gs[k].address);
  }

  /** Duplicate error `x` may precede `y`: both name a row, and either they
      share the address and `x`'s row is the earlier one, or `x`'s address
      was seen first in the table. */
  predicate DuplicateBefore(addrs: seq<Option<int>>, x: ValidationIssue, y: ValidationIssue) {
    && x.message.DuplicateAddress? && y.message.DuplicateAddress?
    && x.rowIndex.Some? && y.rowIndex.Some?
    && if x.message.address == y.message.address then x.rowIndex.value < y.rowIndex.value
       else SeenBefore(addrs, x.message.address, y.message.address)
  }

  /** The duplicate errors come grouped by address, the addresses in the order
      their first row appears, and each address's rows ascending. */
  lemma DuplicateOrder(addrs: seq<Option<int>>, p: int, q: int)
    requires 0 <= p < q < |DuplicateIssues(GroupRows(addrs))|
    ensures DuplicateBefore(addrs, DuplicateIssues(GroupRows(addrs))[p], DuplicateIssues(GroupRows(addrs))[q])
  {
    var gs := GroupRows(addrs);
    var x := DuplicateIssues(gs)[p];
    var y := DuplicateIssues(gs)[q];
    forall j | 0 <= j < |gs|
      ensures Increasing(gs[j].rows)
    {
      GroupRowsRows(addrs, j);
    }
    DuplicateIssuesOrdered(gs);
    assert KeyOrdered(gs, x, y);
    if x.message.address != y.message.address {
      var j, k :| 0 <= j < k < |gs| && gs[j].address == x.message.address && gs[k].address == y.message.address;
      EarlierKeySeenBefore(addrs, j, k);
    }
  }

  /** `DuplicateOrder` for every pair of duplicate errors. */
  lemma DuplicatesInOrder(addrs: seq<Option<int>>)
    ensures forall p, q :: 0 <= p < q < |DuplicateIssues(GroupRows(addrs))| ==>
      DuplicateBefore(addrs, DuplicateIssues(GroupRows(addrs))[p], DuplicateIssues(GroupRows(addrs))[q])
  {
    forall p, q | 0 <= p < q < |DuplicateIssues(GroupRows(addrs))|
      ensures DuplicateBefore(addrs, DuplicateIssues(GroupRows(addrs))[p], DuplicateIssues(GroupRows(addrs))[q])
    {
      DuplicateOrder(addrs, p, q);
    }
  }
}

/**
 * The dictionary `address_to_indices` that `RegisterMap.validate`
 * (bms_register_viewer/model.py) builds from the valid addresses: it maps
 * each integer address to the CSV row numbers that carry it. A Python dict
 * remembers insertion order, so it is an association list here whose keys
 * are distinct. Addresses arrive as the sequence of each entry's
 * `address_int`, `None` for an address that is not an integer.
 */
module Grouping {
  import opened Wrappers
  import opened Sorting

  /** One item of the dictionary: an address and the CSV row numbers (the
      header is row 1, so entry `i` is row `i + 2`) that have it. */
  datatype AddressGroup = AddressGroup(address: int, rows: seq<int>)

  function Keys(gs: seq<AddressGroup>): (ks: seq<int>)
    ensures |ks| == |gs| && forall j :: 0 <= j < |gs| ==> ks[j] == gs[j].address
  {
    seq(|gs|, j requires 0 <= j < |gs| => gs[j].address)
  }

  predicate HasKey(gs: seq<AddressGroup>, a: int) {
    exists j :: 0 <= j < |gs| && gs[j].address == a
  }

  /** The dictionary invariant: no address is a key twice. */
  predicate DistinctKeys(gs: seq<AddressGroup>) {
    forall p, q :: 0 <= p < q < |gs| ==> gs[p].address != gs[q].address
  }

  /** `d.setdefault(a, []).append(row)`: the group of `a` gets `row` at its
      end; when `a` is not yet a key, a new group `[row]` is added last. No
      other group changes and no group moves. */
  function SetDefaultAppend(gs: seq<AddressGroup>, a: int, row: int): (r: seq<AddressGroup>)
    requires DistinctKeys(gs)
    ensures DistinctKeys(r)
    ensures |r| == if HasKey(gs, a) then |gs| else |gs| + 1
    ensures forall j :: 0 <= j < |gs| ==>
      r[j].address == gs[j].address &&
      r[j].rows == if gs[j].address == a then gs[j].rows + [row] else gs[j].rows
    ensures !HasKey(gs, a) ==> r[|gs|] == AddressGroup(a, [row])
  {
    if HasKey(gs, a) then
      seq(|gs|, j requires 0 <= j < |gs| =>
        if gs[j].address == a then AddressGroup(a, gs[j].rows + [row]) else gs[j])
    else
      gs + [AddressGroup(a, [row])]
  }

  /** The dictionary after the loop over all entries: each valid address
      `addrs[i] == Some(a)` appends row `i + 2` to the group of `a`. */
  function GroupRows(addrs: seq<Option<int>>): (gs: seq<AddressGroup>)
    ensures DistinctKeys(gs)
    decreases |addrs|
  {
    if |addrs| == 0 then []
    else
      var n := |addrs| - 1;
      var g := GroupRows(addrs[..n]);
      match addrs[n]
      case None => g
      case Some(a) => SetDefaultAppend(g, a, n + 2)
  }

  /** Independent description of one group's rows: the row numbers of the
      entries whose address is `a`, in table order. */
  function RowsWith(addrs: seq<Option<int>>, a: int): (rs: seq<int>)
    ensures forall x :: x in rs <==> 2 <= x < |addrs| + 2 && addrs[x - 2] == Some(a)
    ensures Increasing(rs)
    ensures forall x :: x in rs ==> x < |addrs| + 2
    decreases |addrs|
  {
    if |addrs| == 0 then []
    else
      var n := |addrs| - 1;
      var prefix := RowsWith(addrs[..n], a);
      var r := prefix + if addrs[n] == Some(a) then [n + 2] else [];
      assert forall p :: 0 <= p < |prefix| ==> prefix[p] in prefix && prefix[p] < n + 2;
      r
  }

  /** `setdefault` adds exactly the address it is given to the keys. */
  lemma SetDefaultAppendKeys(gs: seq<AddressGroup>, b: int, row: int, a: int)
    requires DistinctKeys(gs)
    ensures HasKey(SetDefaultAppend(gs, b, row), a) <==> HasKey(gs, a) || a == b
  {
    var r := SetDefaultAppend(gs, b, row);
    if HasKey(r, a) {
      var j :| 0 <= j < |r| && r[j].address == a;
      if j < |gs| {
        assert gs[j].address == a;
      }
    }
    if HasKey(gs, a) {
      var j :| 0 <= j < |gs| && gs[j].address == a;
      assert r[j].address == a;
    }
    if a == b && HasKey(gs, b) {
      var j :| 0 <= j < |gs| && gs[j].address == b;
      assert r[j].address == a;
    }
  }

  /** The dictionary's keys are exactly the valid addresses. */
  lemma {:induction false} GroupRowsKeys(addrs: seq<Option<int>>, a: int)
    ensures HasKey(GroupRows(addrs), a) <==> Some(a) in addrs
    decreases |addrs|
  {
    if |addrs| > 0 {
      var n := |addrs| - 1;
      assert addrs == addrs[..n] + [addrs[n]];
      GroupRowsKeys(addrs[..n], a);
      match addrs[n]
      case None =>
      case Some(b) =>
        SetDefaultAppendKeys(GroupRows(addrs[..n]), b, n + 2, a);
    }
  }

  /** A value not among the addresses has no rows. */
  lemma {:induction false} RowsWithAbsent(addrs: seq<Option<int>>, a: int)
    requires Some(a) !in addrs
    ensures RowsWith(addrs, a) == []
    decreases |addrs|
  {
    if |addrs| > 0 {
      var n := |addrs| - 1;
      assert addrs[n] in addrs;
      assert forall i :: 0 <= i < n ==> addrs[..n][i] == addrs[i];
      RowsWithAbsent(addrs[..n], a);
    }
  }

  /** Each group holds exactly the rows whose address is its key, in table order. */
  lemma {:induction false} GroupRowsRows(addrs: seq<Option<int>>, j: int)
    requires 0 <= j < |GroupRows(addrs)|
    ensures GroupRows(addrs)[j].rows == RowsWith(addrs, GroupRows(addrs)[j].address)
    decreases |addrs|
  {
    var n := |addrs| - 1;
    var g := GroupRows(addrs[..n]);
    var c := GroupRows(addrs)[j].address;
    assert RowsWith(addrs, c) == RowsWith(addrs[..n], c) + if addrs[n] == Some(c) then [n + 2] else [];
    match addrs[n]
    case None =>
      GroupRowsRows(addrs[..n], j);
    case Some(b) =>
      if j < |g| {
        GroupRowsRows(addrs[..n], j);
      } else {
        GroupRowsKeys(addrs[..n], b);
        RowsWithAbsent(addrs[..n], b);
      }
  }

  /** A group whose rows are those of its key, in a dictionary whose keys
      are the addresses that occur, is not empty. */
  lemma NonEmptyGroup(addrs: seq<Option<int>>, gs: seq<AddressGroup>, j: int)
    requires 0 <= j < |gs|
    requires gs[j].rows == RowsWith(addrs, gs[j].address)
    requires HasKey(gs, gs[j].address) <==> Some(gs[j].address) in addrs
    ensures |gs[j].rows| > 0
  {
    var key := gs[j].address;
    assert HasKey(gs, key);
    var i :| 0 <= i < |addrs| && addrs[i] == Some(key);
    assert i + 2 in RowsWith(addrs, key);
  }

  /** Every group has at least one row. */
  lemma GroupNonEmpty(addrs: seq<Option<int>>, j: int)
    requires 0 <= j < |GroupRows(addrs)|
    ensures |GroupRows(addrs)[j].rows| > 0
  {
    GroupRowsRows(addrs, j);
    GroupRowsKeys(addrs, GroupRows(addrs)[j].address);
    NonEmptyGroup(addrs, GroupRows(addrs), j);
  }

  /** `setdefault` never changes the first row of an existing group. */
  lemma SetDefaultAppendFirst(gs: seq<AddressGroup>, b: int, row: int, j: int)
    requires DistinctKeys(gs) && 0 <= j < |gs| && |gs[j].rows| > 0
    ensures |SetDefaultAppend(gs, b, row)[j].rows| > 0
    ensures SetDefaultAppend(gs, b, row)[j].rows[0] == gs[j].rows[0]
  {
  }

  /** A group that `setdefault` adds starts with the row it was given. */
  lemma SetDefaultAppendNew(gs: seq<AddressGroup>, b: int, row: int, j: int)
    requires DistinctKeys(gs) && |gs| <= j < |SetDefaultAppend(gs, b, row)|
    ensures j == |gs| && SetDefaultAppend(gs, b, row)[j] == AddressGroup(b, [row])
  {
  }

  /** Every row of a group is a row of the table. */
  lemma GroupRowsBelow(addrs: seq<Option<int>>, j: int)
    requires 0 <= j < |GroupRows(addrs)|
    ensures |GroupRows(addrs)[j].rows| > 0 && GroupRows(addrs)[j].rows[0] < |addrs| + 2
  {
    GroupNonEmpty(addrs, j);
    GroupRowsRows(addrs, j);
    assert GroupRows(addrs)[j].rows[0] in RowsWith(addrs, GroupRows(addrs)[j].address);
  }

  /** Keys keep the order in which their address first occurs: an earlier
      group's first row comes before a later group's first row. */
  lemma {:induction false} GroupRowsFirstSeen(addrs: seq<Option<int>>, p: int, q: int)
    requires 0 <= p < q < |GroupRows(addrs)|
    ensures |GroupRows(addrs)[p].rows| > 0 && |GroupRows(addrs)[q].rows| > 0
    ensures GroupRows(addrs)[p].rows[0] < GroupRows(addrs)[q].rows[0]
    decreases |addrs|
  {
    var n := |addrs| - 1;
    var g := GroupRows(addrs[..n]);
    if addrs[n].None? {
      assert GroupRows(addrs) == g;
      GroupRowsFirstSeen(addrs[..n], p, q);
    } else {
      var b := addrs[n].value;
      assert GroupRows(addrs) == SetDefaultAppend(g, b, n + 2);
      GroupNonEmpty(addrs[..n], p);
      SetDefaultAppendFirst(g, b, n + 2, p);
      if q < |g| {
        GroupNonEmpty(addrs[..n], q);
        SetDefaultAppendFirst(g, b, n + 2, q);
        GroupRowsFirstSeen(addrs[..n], p, q);
      } else {
        SetDefaultAppendNew(g, b, n + 2, q);
        GroupRowsBelow(addrs[..n], p);
      }
    }
  }

  /** The keys are pairwise distinct, and a value is among them exactly when
      some group has it. */
  lemma KeysDistinct(gs: seq<AddressGroup>)
    requires DistinctKeys(gs)
    ensures Distinct(Keys(gs))
    ensures forall x :: x in Keys(gs) <==> HasKey(gs, x)
  {
    var ks := Keys(gs);
    forall x
      ensures x in ks <==> HasKey(gs, x)
    {
      if x in ks {
        var j :| 0 <= j < |ks| && ks[j] == x;
        assert gs[j].address == x;
      }
      if HasKey(gs, x) {
        var j :| 0 <= j < |gs| && gs[j].address == x;
        assert ks[j] == x;
      }
    }
  }

  /** `sorted(address_to_indices.keys())`: the valid addresses, each once, in
      strictly ascending order. */
  lemma SortedKeys(addrs: seq<Option<int>>)
    ensures Increasing(Sort(Keys(GroupRows(addrs))))
    ensures forall x :: x in Sort(Keys(GroupRows(addrs))) <==> Some(x) in addrs
  {
    var gs := GroupRows(addrs);
    KeysDistinct(gs);
    SortDistinct(Keys(gs));
    forall x
      ensures x in Keys(gs) <==> Some(x) in addrs
    {
      GroupRowsKeys(addrs, x);
    }
  }

  /** The loop over `range(len(s) - 1)`: each neighbouring pair `(cur, next)`
      of `s` with `next - cur > 1`, in order. */
  function GapPairs(s: seq<int>): (ps: seq<(int, int)>)
    ensures forall j :: 0 <= j < |ps| ==> ps[j].0 in s && ps[j].1 in s
    decreases |s|
  {
    if |s| < 2 then []
    else (if s[1] - s[0] > 1 then [(s[0], s[1])] else []) + GapPairs(s[1..])
  }

  /** No member of `s` lies strictly between `c` and `n`. */
  predicate NothingBetween(s: seq<int>, c: int, n: int) {
    forall x :: x in s ==> x <= c || n <= x
  }

  /** Every reported pair is two members more than one apart with no member between. */
  lemma {:induction false} GapPairsSound(s: seq<int>, c: int, n: int)
    requires Increasing(s) && (c, n) in GapPairs(s)
    ensures c in s && n in s && c + 1 < n && NothingBetween(s, c, n)
    decreases |s|
  {
    var head := if s[1] - s[0] > 1 then [(s[0], s[1])] else [];
    var tail := s[1..];
    assert GapPairs(s) == head + GapPairs(tail);
    if (c, n) in head {
      forall x | x in s
        ensures x <= c || n <= x
      {
        var k :| 0 <= k < |s| && s[k] == x;
        if k >= 1 {
          assert s[1] <= s[k];
        }
      }
    } else {
      GapPairsSound(tail, c, n);
      var k :| 0 <= k < |tail| && tail[k] == c;
      assert s[0] < s[k + 1];
      forall x | x in s
        ensures x <= c || n <= x
      {
        if x != s[0] {
          var j :| 0 <= j < |s| && s[j] == x;
          assert x in tail by { assert tail[j - 1] == x; }
        }
      }
    }
  }

  /** Every two members more than one apart with no member between are reported. */
  lemma {:induction false} GapPairsComplete(s: seq<int>, c: int, n: int)
    requires Increasing(s) && c in s && n in s && c + 1 < n && NothingBetween(s, c, n)
    ensures (c, n) in GapPairs(s)
    decreases |s|
  {
    var i :| 0 <= i < |s| && s[i] == c;
    var k :| 0 <= k < |s| && s[k] == n;
    assert i < k;
    var head := if s[1] - s[0] > 1 then [(s[0], s[1])] else [];
    var tail := s[1..];
    assert GapPairs(s) == head + GapPairs(tail);
    if i == 0 {
      assert s[1] in s;
      assert s[1] <= s[k];
      assert head == [(c, n)];
    } else {
      assert tail[i - 1] == c && tail[k - 1] == n;
      forall x | x in tail
        ensures x <= c || n <= x
      {
        assert x in s;
      }
      GapPairsComplete(tail, c, n);
    }
  }

  /** Pairs in strictly ascending order of their first member. */
  predicate AscendingFirst(ps: seq<(int, int)>) {
    forall p, q :: 0 <= p < q < |ps| ==> ps[p].0 < ps[q].0
  }

  lemma AscendingCons(x: (int, int), ps: seq<(int, int)>)
    requires AscendingFirst(ps)
    requires forall j :: 0 <= j < |ps| ==> x.0 < ps[j].0
    ensures AscendingFirst([x] + ps)
  {
    var r := [x] + ps;
    forall p, q | 0 <= p < q < |r|
      ensures r[p].0 < r[q].0
    {
      assert r[q] == ps[q - 1];
      if p > 0 {
        assert r[p] == ps[p - 1];
      }
    }
  }

  /** The reported pairs come in ascending order of their lower member. */
  lemma {:induction false} GapPairsAscending(s: seq<int>)
    requires Increasing(s)
    ensures AscendingFirst(GapPairs(s))
    decreases |s|
  {
    if |s| >= 2 {
      var tail := GapPairs(s[1..]);
      GapPairsAscending(s[1..]);
      forall j | 0 <= j < |tail|
        ensures s[0] < tail[j].0
      {
        var k :| 0 <= k < |s[1..]| && s[1..][k] == tail[j].0;
        assert s[0] < s[k + 1];
      }
      if s[1] - s[0] > 1 {
        AscendingCons((s[0], s[1]), tail);
      } else {
        assert GapPairs(s) == tail;
      }
    }
  }
}

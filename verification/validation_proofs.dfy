/**
 * What `RegisterMap.validate` promises about its output, proved of the
 * functions in `Validation`.
 */
module ValidationProofs {
  import opened Wrappers
  import opened Sequences
  import opened Registers
  import opened Validation
  import opened Grouping
  import opened DuplicateProofs
  import opened GapProofs

  lemma PerRowIssuesSplit(es: seq<RegisterEntry>)
    requires |es| > 0
    ensures PerRowIssues(es) == PerRowIssues(es[..|es| - 1]) + RowIssues(es[|es| - 1], |es| - 1)
  {
  }

  /** The last row's issues count nothing against an earlier row. */
  lemma LastRowOtherRow(es: seq<RegisterEntry>, i: int, k: nat)
    requires 0 <= i < |es| - 1
    ensures Count(RowIssues(es[|es| - 1], |es| - 1), k, i + 2) == 0
  {
    CountAbsent(RowIssues(es[|es| - 1], |es| - 1), k, i + 2);
  }

  /** The earlier rows' issues count nothing against the last row. */
  lemma EarlierRowsLastRow(es: seq<RegisterEntry>, k: nat, row: int)
    requires |es| > 0 && row == |es| + 1
    ensures Count(PerRowIssues(es[..|es| - 1]), k, row) == 0
  {
    CountAbsent(PerRowIssues(es[..|es| - 1]), k, row);
  }

  /** Over the whole table, row `i` collects just the issues of its own checks. */
  lemma {:induction false} PerRowCountOwnRow(es: seq<RegisterEntry>, i: int, k: nat)
    requires 0 <= i < |es|
    ensures Count(PerRowIssues(es), k, i + 2) == Count(RowIssues(es[i], i), k, i + 2)
    decreases |es|
  {
    var n := |es| - 1;
    var prefix := PerRowIssues(es[..n]);
    var last := RowIssues(es[n], n);
    PerRowIssuesSplit(es);
    CountAppend(prefix, last, k, i + 2);
    if i < n {
      PerRowCountOwnRow(es[..n], i, k);
      assert es[..n][i] == es[i];
      LastRowOtherRow(es, i, k);
    } else {
      EarlierRowsLastRow(es, k, i + 2);
      assert Count(last, k, i + 2) == Count(RowIssues(es[i], i), k, i + 2);
    }
  }

  /** Each failing check of each row gives exactly one per-row issue against
      that row, and a check that passes gives none. */
  lemma PerRowCount(es: seq<RegisterEntry>, i: int, k: nat)
    requires 0 <= i < |es| && k < 5
    ensures Count(PerRowIssues(es), k, i + 2) == if CheckFails(es[i], k) then 1 else 0
  {
    PerRowCountOwnRow(es, i, k);
    RowIssuesCount(es[i], i, k);
  }

  // ---------------------------------------------------------------------------
  // Assembling the output from the per-row issues and the valid addresses
  // ---------------------------------------------------------------------------

  /** The part of the output an issue belongs to: 0 per-row checks, 1
      duplicates, 2 gaps. */
  function Section(m: Message): nat {
    if Rank(m) < 5 then 0 else Rank(m) - 4
  }

  predicate PerRowOnly(pr: seq<ValidationIssue>) {
    forall p :: 0 <= p < |pr| ==> Rank(pr[p].message) < 5
  }

  lemma DuplicateRanks(gs: seq<AddressGroup>)
    ensures forall p :: 0 <= p < |DuplicateIssues(gs)| ==> Rank(DuplicateIssues(gs)[p].message) == 5
  {
    DuplicateIssuesShape(gs);
  }

  lemma GapRanks(gs: seq<AddressGroup>, checkGaps: bool)
    ensures forall p :: 0 <= p < |GapWarnings(gs, checkGaps)| ==> Rank(GapWarnings(gs, checkGaps)[p].message) == 6
  {
    GapWarningsShape(gs, checkGaps);
  }

  /** The output is the per-row issues, the duplicate errors and the gap warnings, in that order. */
  lemma AssembleParts(pr: seq<ValidationIssue>, addrs: seq<Option<int>>, checkGaps: bool)
    ensures Assemble(pr, addrs, checkGaps) == pr + DuplicateIssues(GroupRows(addrs)) + GapWarnings(GroupRows(addrs), checkGaps)
  {
  }

  /** The per-row issues stay first and in their order; duplicates follow;
      gap warnings come last. */
  lemma AssembleOrder(pr: seq<ValidationIssue>, addrs: seq<Option<int>>, checkGaps: bool)
    requires PerRowOnly(pr)
    ensures var r := Assemble(pr, addrs, checkGaps);
      |r| >= |pr| && r[..|pr|] == pr &&
      (forall p :: 0 <= p < |r| ==> (Rank(r[p].message) < 5 <==> p < |pr|)) &&
      forall p, q :: 0 <= p < q < |r| ==> Section(r[p].message) <= Section(r[q].message)
  {
    var gs := GroupRows(addrs);
    var d := DuplicateIssues(gs);
    var w := GapWarnings(gs, checkGaps);
    var r := Assemble(pr, addrs, checkGaps);
    DuplicateRanks(gs);
    GapRanks(gs, checkGaps);
    assert r == pr + d + w;
    forall p | 0 <= p < |r|
      ensures Section(r[p].message) == if p < |pr| then 0 else if p < |pr| + |d| then 1 else 2
    {
      ConcatAt(pr, d, w, p);
    }
  }

  /** The duplicate errors and gap warnings count nothing for a per-row check. */
  lemma AssembleRowCount(pr: seq<ValidationIssue>, addrs: seq<Option<int>>, checkGaps: bool, k: nat, row: int)
    requires k < 5
    ensures Count(Assemble(pr, addrs, checkGaps), k, row) == Count(pr, k, row)
  {
    var gs := GroupRows(addrs);
    var d := DuplicateIssues(gs);
    var w := GapWarnings(gs, checkGaps);
    DuplicateRanks(gs);
    GapRanks(gs, checkGaps);
    CountAppend(pr + d, w, k, row);
    CountAppend(pr, d, k, row);
    CountAbsent(d, k, row);
    CountAbsent(w, k, row);
  }

  /** Row `i + 2` gets one duplicate error when its address is shared and none otherwise. */
  lemma AssembleDuplicateCount(pr: seq<ValidationIssue>, addrs: seq<Option<int>>, checkGaps: bool, i: int)
    requires PerRowOnly(pr) && 0 <= i < |addrs|
    ensures Count(Assemble(pr, addrs, checkGaps), 5, i + 2) == if SharedAddress(addrs, i) then 1 else 0
  {
    var gs := GroupRows(addrs);
    var d := DuplicateIssues(gs);
    var w := GapWarnings(gs, checkGaps);
    GapRanks(gs, checkGaps);
    CountAppend(pr + d, w, 5, i + 2);
    CountAppend(pr, d, 5, i + 2);
    CountAbsent(pr, 5, i + 2);
    CountAbsent(w, 5, i + 2);
    DuplicateCount(addrs, i);
  }

  /** A duplicate error of the output is one of the duplicate errors, after the per-row issues. */
  lemma AssembleDuplicateAt(pr: seq<ValidationIssue>, addrs: seq<Option<int>>, checkGaps: bool, p: int)
    requires PerRowOnly(pr)
    requires 0 <= p < |Assemble(pr, addrs, checkGaps)| && Assemble(pr, addrs, checkGaps)[p].message.DuplicateAddress?
    ensures 0 <= p - |pr| < |DuplicateIssues(GroupRows(addrs))|
    ensures Assemble(pr, addrs, checkGaps)[p] == DuplicateIssues(GroupRows(addrs))[p - |pr|]
  {
    var gs := GroupRows(addrs);
    var d := DuplicateIssues(gs);
    var w := GapWarnings(gs, checkGaps);
    GapRanks(gs, checkGaps);
    AssembleParts(pr, addrs, checkGaps);
    ConcatAt(pr, d, w, p);
  }

  /** Every duplicate error names a shared valid address and a row that has it. */
  lemma AssembleDuplicateIssue(pr: seq<ValidationIssue>, addrs: seq<Option<int>>, checkGaps: bool, p: int)
    requires PerRowOnly(pr)
    requires 0 <= p < |Assemble(pr, addrs, checkGaps)| && Assemble(pr, addrs, checkGaps)[p].message.DuplicateAddress?
    ensures ProperDuplicate(addrs, Assemble(pr, addrs, checkGaps)[p])
  {
    var q := p - |pr|;
    var x := Assemble(pr, addrs, checkGaps)[p];
    AssembleDuplicateAt(pr, addrs, checkGaps, p);
    assert x == DuplicateIssues(GroupRows(addrs))[q];
    DuplicateIssueFacts(addrs, q);
    assert ProperDuplicate(addrs, DuplicateIssues(GroupRows(addrs))[q]);
  }

  /** The gap warning for `c` and `n` is in the output exactly when it is among the gap warnings. */
  lemma AssembleGap(pr: seq<ValidationIssue>, addrs: seq<Option<int>>, checkGaps: bool, c: int, n: int)
    requires PerRowOnly(pr)
    ensures GapIssue(c, n) in Assemble(pr, addrs, checkGaps) <==>
      checkGaps && Some(c) in addrs && Some(n) in addrs && c + 1 < n && NoAddressBetween(addrs, c, n)
  {
    var gs := GroupRows(addrs);
    DuplicateRanks(gs);
    AssembleParts(pr, addrs, checkGaps);
    InGapPart(pr, DuplicateIssues(gs), GapWarnings(gs, checkGaps), GapIssue(c, n));
    GapWarningsSpec(addrs, checkGaps, c, n);
  }

  /** A gap warning is among per-row issues, duplicate errors and gap
      warnings exactly when it is among the gap warnings. */
  lemma InGapPart(pr: seq<ValidationIssue>, d: seq<ValidationIssue>, w: seq<ValidationIssue>, x: ValidationIssue)
    requires PerRowOnly(pr) && Rank(x.message) == 6
    requires forall q :: 0 <= q < |d| ==> Rank(d[q].message) == 5
    ensures x in pr + d + w <==> x in w
  {
    assert x !in pr + d by {
      forall p | 0 <= p < |pr + d|
        ensures Rank((pr + d)[p].message) < 6
      {
        if p >= |pr| {
          assert (pr + d)[p] == d[p - |pr|];
        }
      }
    }
  }

  /** A gap warning among per-row issues, duplicate errors and gap warnings
      is one of the gap warnings. */
  lemma InLastPart(r: seq<ValidationIssue>, pr: seq<ValidationIssue>, d: seq<ValidationIssue>, w: seq<ValidationIssue>, p: int)
    requires r == pr + d + w && PerRowOnly(pr)
    requires forall q :: 0 <= q < |d| ==> Rank(d[q].message) == 5
    requires 0 <= p < |r| && r[p].message.AddressGap?
    ensures 0 <= p - |pr| - |d| < |w| && r[p] == w[p - |pr| - |d|]
  {
    ConcatAt(pr, d, w, p);
  }

  /** A gap warning of the output is one of the gap warnings, at the end. */
  lemma AssembleGapAt(pr: seq<ValidationIssue>, addrs: seq<Option<int>>, checkGaps: bool, p: int)
    requires PerRowOnly(pr)
    requires 0 <= p < |Assemble(pr, addrs, checkGaps)| && Assemble(pr, addrs, checkGaps)[p].message.AddressGap?
    ensures var gs := GroupRows(addrs);
      var k := p - |pr| - |DuplicateIssues(gs)|;
      0 <= k < |GapWarnings(gs, checkGaps)| && Assemble(pr, addrs, checkGaps)[p] == GapWarnings(gs, checkGaps)[k]
  {
    var gs := GroupRows(addrs);
    DuplicateRanks(gs);
    AssembleParts(pr, addrs, checkGaps);
    InLastPart(Assemble(pr, addrs, checkGaps), pr, DuplicateIssues(gs), GapWarnings(gs, checkGaps), p);
  }

  /** Each gap warning carries its lower address and no row. */
  lemma AssembleGapIssue(pr: seq<ValidationIssue>, addrs: seq<Option<int>>, checkGaps: bool, p: int)
    requires PerRowOnly(pr)
    requires 0 <= p < |Assemble(pr, addrs, checkGaps)| && Assemble(pr, addrs, checkGaps)[p].message.AddressGap?
    ensures var x := Assemble(pr, addrs, checkGaps)[p];
      x == GapIssue(x.message.cur, x.message.next) && x.severity == Warning && x.rowIndex.None?
  {
    AssembleGapAt(pr, addrs, checkGaps, p);
    GapWarningsShape(GroupRows(addrs), checkGaps);
  }

  /** The gap warnings come in ascending order of their lower address. */
  lemma AssembleGapsAscending(pr: seq<ValidationIssue>, addrs: seq<Option<int>>, checkGaps: bool, p: int, q: int)
    requires PerRowOnly(pr)
    requires 0 <= p < q < |Assemble(pr, addrs, checkGaps)|
    requires Assemble(pr, addrs, checkGaps)[p].message.AddressGap? && Assemble(pr, addrs, checkGaps)[q].message.AddressGap?
    ensures Assemble(pr, addrs, checkGaps)[p].message.cur < Assemble(pr, addrs, checkGaps)[q].message.cur
  {
    AssembleGapAt(pr, addrs, checkGaps, p);
    AssembleGapAt(pr, addrs, checkGaps, q);
    GapWarningsAscending(addrs, checkGaps);
  }

  // ---------------------------------------------------------------------------
  // The whole validation
  // ---------------------------------------------------------------------------

  /** Per-row issues come first, then duplicates, then gaps; the per-row
      issues are in row order and, within a row, in check order. */
  lemma ValidateOrder(es: seq<RegisterEntry>, checkGaps: bool)
    ensures var r := Validate(es, checkGaps);
      forall p, q :: 0 <= p < q < |r| ==> Section(r[p].message) <= Section(r[q].message)
    ensures var r := Validate(es, checkGaps);
      forall p, q :: 0 <= p < q < |r| && Rank(r[q].message) < 5 ==>
        r[p].rowIndex.Some? && r[q].rowIndex.Some? &&
        (|| r[p].rowIndex.value < r[q].rowIndex.value
         || (r[p].rowIndex == r[q].rowIndex && Rank(r[p].message) < Rank(r[q].message)))
  {
    var pr := PerRowIssues(es);
    var r := Validate(es, checkGaps);
    AssembleOrder(pr, AddressInts(es), checkGaps);
    forall p, q | 0 <= p < q < |r| && Rank(r[q].message) < 5
      ensures r[p] == pr[p] && r[q] == pr[q]
    {
      assert r[..|pr|][p] == r[p] && r[..|pr|][q] == r[q];
    }
  }

  /** In the whole output, each failing check of each row gives exactly one
      issue against that row and a passing check gives none. */
  lemma ValidateRowCount(es: seq<RegisterEntry>, checkGaps: bool, i: int, k: nat)
    requires 0 <= i < |es| && k < 5
    ensures Count(Validate(es, checkGaps), k, i + 2) == if CheckFails(es[i], k) then 1 else 0
  {
    AssembleRowCount(PerRowIssues(es), AddressInts(es), checkGaps, k, i + 2);
    PerRowCount(es, i, k);
  }

  /** Every per-row issue in the output is the one a failing check of its row
      reports: the missing name is a warning and the rest are errors, the
      missing address carries no address, and the others carry the row's
      address text unless it is empty. */
  lemma ValidateRowIssue(es: seq<RegisterEntry>, checkGaps: bool, p: int)
    requires 0 <= p < |Validate(es, checkGaps)| && Rank(Validate(es, checkGaps)[p].message) < 5
    ensures RowIssueOf(es, Validate(es, checkGaps)[p])
  {
    var pr := PerRowIssues(es);
    var r := Validate(es, checkGaps);
    AssembleOrder(pr, AddressInts(es), checkGaps);
    assert r[..|pr|][p] == r[p];
  }

  /** In any list whose per-row issues are all issues of failing checks, and
      which counts one issue for a failing check and none for a passing one,
      the check's issue is present exactly when the check fails. */
  lemma {:induction false} CheckIssueIn(r: seq<ValidationIssue>, es: seq<RegisterEntry>, i: int, k: nat)
    requires 0 <= i < |es| && k < 5
    requires forall p :: 0 <= p < |r| && Rank(r[p].message) < 5 ==> RowIssueOf(es, r[p])
    requires Count(r, k, i + 2) == if CheckFails(es[i], k) then 1 else 0
    ensures CheckIssue(es[i].address, i, k) in r <==> CheckFails(es[i], k)
  {
    if CheckFails(es[i], k) {
      var p := CountWitness(r, k, i + 2);
      RowIssueOfCheck(es, r[p], i, k);
      assert r[p] == CheckIssue(es[i].address, i, k);
    } else {
      CountZero(r, k, i + 2);
      CheckIssueAbsent(r, es[i].address, i, k);
    }
  }

  /** An issue of a failing check of row `i + 2` is that check's issue. */
  lemma RowIssueOfCheck(es: seq<RegisterEntry>, y: ValidationIssue, i: int, k: nat)
    requires 0 <= i < |es| && k < 5
    requires RowIssueOf(es, y) && Rank(y.message) == k && y.rowIndex == Some(i + 2)
    ensures y == CheckIssue(es[i].address, i, k)
  {
  }

  /** Where no issue has check `k`'s rank and row `i + 2`, that check's issue is absent. */
  lemma CheckIssueAbsent(r: seq<ValidationIssue>, address: string, i: nat, k: nat)
    requires k < 5
    requires forall p :: 0 <= p < |r| ==> Rank(r[p].message) != k || r[p].rowIndex != Some(i + 2)
    ensures CheckIssue(address, i, k) !in r
  {
  }

  /** The output holds the issue of check `k` for row `i + 2`, with its
      severity and address, exactly when that check fails for the row. */
  lemma ValidateCheckIssue(es: seq<RegisterEntry>, checkGaps: bool, i: int, k: nat)
    requires 0 <= i < |es| && k < 5
    ensures CheckIssue(es[i].address, i, k) in Validate(es, checkGaps) <==> CheckFails(es[i], k)
  {
    var r := Validate(es, checkGaps);
    forall p | 0 <= p < |r| && Rank(r[p].message) < 5
      ensures RowIssueOf(es, r[p])
    {
      ValidateRowIssue(es, checkGaps, p);
    }
    ValidateRowCount(es, checkGaps, i, k);
    CheckIssueIn(r, es, i, k);
  }

  /** Row `i + 2` gets exactly one duplicate error when its address is an
      integer that another row also has, and none otherwise. */
  lemma ValidateDuplicateCount(es: seq<RegisterEntry>, checkGaps: bool, i: int)
    requires 0 <= i < |es|
    ensures Count(Validate(es, checkGaps), 5, i + 2) == if SharedAddress(AddressInts(es), i) then 1 else 0
  {
    AssembleDuplicateCount(PerRowIssues(es), AddressInts(es), checkGaps, i);
  }

  /** Every duplicate error is the error for a row of the table whose valid
      address, shared with another row, it names. */
  lemma ValidateDuplicateIssue(es: seq<RegisterEntry>, checkGaps: bool, p: int)
    requires 0 <= p < |Validate(es, checkGaps)| && Validate(es, checkGaps)[p].message.DuplicateAddress?
    ensures ProperDuplicate(AddressInts(es), Validate(es, checkGaps)[p])
  {
    var addrs := AddressInts(es);
    assert Validate(es, checkGaps) == Assemble(PerRowIssues(es), addrs, checkGaps);
    AssembleDuplicateIssue(PerRowIssues(es), addrs, checkGaps, p);
  }

  /** With gaps asked for, the output warns about `c` and `n` exactly when
      both are valid addresses more than one apart with no valid address
      between them; without, it never does. */
  lemma ValidateGap(es: seq<RegisterEntry>, checkGaps: bool, c: int, n: int)
    ensures GapIssue(c, n) in Validate(es, checkGaps) <==>
      checkGaps && Some(c) in AddressInts(es) && Some(n) in AddressInts(es) && c + 1 < n &&
      NoAddressBetween(AddressInts(es), c, n)
  {
    AssembleGap(PerRowIssues(es), AddressInts(es), checkGaps, c, n);
  }

  /** Every gap warning carries its lower address as `str(cur)` and no row,
      and the warnings come in ascending order of that address. */
  lemma ValidateGapIssues(es: seq<RegisterEntry>, checkGaps: bool)
    ensures var r := Validate(es, checkGaps);
      forall p :: 0 <= p < |r| && r[p].message.AddressGap? ==>
        r[p] == GapIssue(r[p].message.cur, r[p].message.next) &&
        r[p].severity == Warning && r[p].rowIndex.None?
    ensures var r := Validate(es, checkGaps);
      forall p, q :: 0 <= p < q < |r| && r[p].message.AddressGap? && r[q].message.AddressGap? ==>
        r[p].message.cur < r[q].message.cur
  {
    var pr := PerRowIssues(es);
    var r := Validate(es, checkGaps);
    forall p | 0 <= p < |r| && r[p].message.AddressGap?
      ensures r[p] == GapIssue(r[p].message.cur, r[p].message.next) && r[p].severity == Warning && r[p].rowIndex.None?
    {
      AssembleGapIssue(pr, AddressInts(es), checkGaps, p);
    }
    forall p, q | 0 <= p < q < |r| && r[p].message.AddressGap? && r[q].message.AddressGap?
      ensures r[p].message.cur < r[q].message.cur
    {
      AssembleGapsAscending(pr, AddressInts(es), checkGaps, p, q);
    }
  }

  /** Two duplicate errors among per-row issues, duplicate errors and gap
      warnings are in the order they have among the duplicate errors. */
  lemma OrderInMiddlePart(r: seq<ValidationIssue>, pr: seq<ValidationIssue>, d: seq<ValidationIssue>, w: seq<ValidationIssue>,
                          addrs: seq<Option<int>>, p: int, q: int)
    requires r == pr + d + w && PerRowOnly(pr)
    requires forall k :: 0 <= k < |w| ==> Rank(w[k].message) == 6
    requires forall p', q' :: 0 <= p' < q' < |d| ==> DuplicateBefore(addrs, d[p'], d[q'])
    requires 0 <= p < q < |r| && r[p].message.DuplicateAddress? && r[q].message.DuplicateAddress?
    ensures DuplicateBefore(addrs, r[p], r[q])
  {
    ConcatAt(pr, d, w, p);
    ConcatAt(pr, d, w, q);
    assert r[p] == d[p - |pr|] && r[q] == d[q - |pr|];
  }

  /** The duplicate errors keep the dictionary's order inside the output. */
  lemma AssembleDuplicateOrder(pr: seq<ValidationIssue>, addrs: seq<Option<int>>, checkGaps: bool, p: int, q: int)
    requires PerRowOnly(pr)
    requires 0 <= p < q < |Assemble(pr, addrs, checkGaps)|
    requires Assemble(pr, addrs, checkGaps)[p].message.DuplicateAddress?
    requires Assemble(pr, addrs, checkGaps)[q].message.DuplicateAddress?
    ensures DuplicateBefore(addrs, Assemble(pr, addrs, checkGaps)[p], Assemble(pr, addrs, checkGaps)[q])
  {
    var gs := GroupRows(addrs);
    GapRanks(gs, checkGaps);
    AssembleParts(pr, addrs, checkGaps);
    DuplicatesInOrder(addrs);
    OrderInMiddlePart(Assemble(pr, addrs, checkGaps), pr, DuplicateIssues(gs), GapWarnings(gs, checkGaps), addrs, p, q);
  }

  /** Within the output, the duplicate errors are grouped by address, the
      addresses in the order their first row appears in the table, and each
      address's rows in ascending order. */
  lemma ValidateDuplicateOrder(es: seq<RegisterEntry>, checkGaps: bool, p: int, q: int)
    requires 0 <= p < q < |Validate(es, checkGaps)|
    requires Validate(es, checkGaps)[p].message.DuplicateAddress?
    requires Validate(es, checkGaps)[q].message.DuplicateAddress?
    ensures DuplicateBefore(AddressInts(es), Validate(es, checkGaps)[p], Validate(es, checkGaps)[q])
  {
    var addrs := AddressInts(es);
    assert Validate(es, checkGaps) == Assemble(PerRowIssues(es), addrs, checkGaps);
    AssembleDuplicateOrder(PerRowIssues(es), addrs, checkGaps, p, q);
  }
}

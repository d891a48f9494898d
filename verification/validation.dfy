/**
 * `ValidationIssue` and `RegisterMap.validate` (bms_register_viewer/model.py):
 * per-row required-field and address checks, one error per row that shares an
 * integer address, and optional warnings for gaps between the distinct
 * addresses. The Python dictionary from address to reported rows is an
 * insertion-ordered association list here.
 */
module Validation {
  import opened Wrappers
  import opened Text
  import opened PyInt
  import opened Sorting
  import opened Registers
  import opened Grouping

  datatype Severity = Error | Warning
  /** What an issue reports. `MessageText` spells each one exactly as the
      source's message string; distinct messages have distinct spellings. */
  datatype Message =
    | MissingAddress
    | MissingFunction
    | MissingName
    | MissingDataType
    | InvalidAddress
    | DuplicateAddress(address: int)
    | AddressGap(cur: int, next: int)

  function MessageText(m: Message): string {
    match m
    case MissingAddress => "Missing address."
    case MissingFunction => "Missing function code."
    case MissingName => "Missing name/description."
    case MissingDataType => "Missing data type."
    case InvalidAddress => "Invalid address (not an integer)."
    case DuplicateAddress(a) => "Duplicate address " + IntToString(a) + "."
    case AddressGap(cur, next) => "Gap in addresses between " + IntToString(cur) + " and " + IntToString(next) + "."
  }

  /** The address an issue reports: the entry's own text, or `str(n)` of an
      integer address. `AddressText` spells it. */
  datatype IssueAddress = EntryText(text: string) | Printed(n: int)

  function AddressText(a: IssueAddress): string {
    match a
    case EntryText(t) => t
    case Printed(n) => IntToString(n)
  }

  /** One finding: `address` and `rowIndex` are `None` where the source stores `None`. */
  datatype ValidationIssue = ValidationIssue(
    severity: Severity,
    message: Message,
    address: Option<IssueAddress>,
    rowIndex: Option<int>)

  /** The position of a message's kind in the output: the five per-row checks
      0 to 4 in the order they run, then duplicates (5), then gaps (6). */
  function Rank(m: Message): nat {
    match m
    case MissingAddress => 0
    case MissingFunction => 1
    case MissingName => 2
    case MissingDataType => 3
    case InvalidAddress => 4
    case DuplicateAddress(_) => 5
    case AddressGap(_, _) => 6
  }

  /** Which of the five per-row checks fail for `e`, in the order they run:
      address, function code, name and data type blank after stripping, then
      an address that is not an integer. */
  function Failures(e: RegisterEntry): (f: seq<bool>)
    ensures |f| == 5
  {
    [Strip(e.address) == "", Strip(e.functionCode) == "", Strip(e.name) == "",
     Strip(e.dataType) == "", AddressInt(e).None?]
  }

  /** Per-row check `k` fails for `e`. */
  predicate CheckFails(e: RegisterEntry, k: nat)
    requires k < 5
  {
    Failures(e)[k]
  }

  /** The number of issues in `r` of rank `rank` reported against row `row`. */
  function Count(r: seq<ValidationIssue>, rank: nat, row: int): nat
    decreases |r|
  {
    if |r| == 0 then 0
    else
      var here := if Rank(r[0].message) == rank && r[0].rowIndex == Some(row) then 1 else 0;
      here + Count(r[1..], rank, row)
  }

  lemma {:induction false} CountAppend(a: seq<ValidationIssue>, b: seq<ValidationIssue>, rank: nat, row: int)
    ensures Count(a + b, rank, row) == Count(a, rank, row) + Count(b, rank, row)
    decreases |a|
  {
    if |a| == 0 {
      assert a + b == b;
    } else {
      assert (a + b)[1..] == a[1..] + b;
      CountAppend(a[1..], b, rank, row);
    }
  }

  /** Nothing is counted when no issue has the rank and row asked for. */
  lemma {:induction false} CountAbsent(r: seq<ValidationIssue>, rank: nat, row: int)
    requires forall i :: 0 <= i < |r| ==> Rank(r[i].message) != rank || r[i].rowIndex != Some(row)
    ensures Count(r, rank, row) == 0
    decreases |r|
  {
    if |r| > 0 {
      CountAbsent(r[1..], rank, row);
    }
  }

  /** A zero count means no issue of that rank and row is present. */
  lemma {:induction false} CountZero(r: seq<ValidationIssue>, rank: nat, row: int)
    requires Count(r, rank, row) == 0
    ensures forall p :: 0 <= p < |r| ==> Rank(r[p].message) != rank || r[p].rowIndex != Some(row)
    decreases |r|
  {
    if |r| > 0 {
      CountZero(r[1..], rank, row);
      assert forall p :: 1 <= p < |r| ==> r[p] == r[1..][p - 1];
    }
  }

  /** A positive count has an issue of that rank and row behind it. */
  lemma {:induction false} CountWitness(r: seq<ValidationIssue>, rank: nat, row: int) returns (p: int)
    requires Count(r, rank, row) > 0
    ensures 0 <= p < |r| && Rank(r[p].message) == rank && r[p].rowIndex == Some(row)
    decreases |r|
  {
    if Rank(r[0].message) == rank && r[0].rowIndex == Some(row) {
      p := 0;
    } else {
      var p' := CountWitness(r[1..], rank, row);
      p := p' + 1;
    }
  }

  // ---------------------------------------------------------------------------
  // Per-row checks
  // ---------------------------------------------------------------------------

  /** `entry.address or None`. */
  function AddressOrNone(address: string): Option<IssueAddress> {
    if address == "" then None else Some(EntryText(address))
  }

  /** The issue check `k` reports for an entry with address text `address`
      at position `idx`: reported against row `idx + 2`; the missing name is a
      warning and the others are errors; the missing-address error carries no
      address, the others carry the address unless it is the empty string. */
  function CheckIssue(address: string, idx: nat, k: nat): (x: ValidationIssue)
    requires k < 5
    ensures Rank(x.message) == k && x.rowIndex == Some(idx + 2)
    ensures x.severity == (if k == 2 then Warning else Error)
    ensures x.address == if k == 0 || address == "" then None else Some(EntryText(address))
  {
    var rowIndex := Some(idx + 2);
    var addr := AddressOrNone(address);
    if k == 0 then ValidationIssue(Error, MissingAddress, None, rowIndex)
    else if k == 1 then ValidationIssue(Error, MissingFunction, addr, rowIndex)
    else if k == 2 then ValidationIssue(Warning, MissingName, addr, rowIndex)
    else if k == 3 then ValidationIssue(Error, MissingDataType, addr, rowIndex)
    else ValidationIssue(Error, InvalidAddress, addr, rowIndex)
  }

  /** The issues of check `k` and of every later check, given which checks
      fail, in check order. */
  function ChecksFrom(fails: seq<bool>, address: string, idx: nat, k: nat): (r: seq<ValidationIssue>)
    requires |fails| == 5 && k <= 5
    ensures forall i :: 0 <= i < |r| ==> r[i].rowIndex == Some(idx + 2) && k <= Rank(r[i].message) < 5
    ensures forall i :: 0 <= i < |r| ==>
      fails[Rank(r[i].message)] && r[i] == CheckIssue(address, idx, Rank(r[i].message))
    ensures forall p, q :: 0 <= p < q < |r| ==> Rank(r[p].message) < Rank(r[q].message)
    decreases 5 - k
  {
    if k == 5 then []
    else
      var rest := ChecksFrom(fails, address, idx, k + 1);
      var head := if fails[k] then [CheckIssue(address, idx, k)] else [];
      head + rest
  }

  /** Each check from `k` on gives exactly one issue when it fails and none
      when it passes. */
  lemma {:induction false} ChecksFromCount(fails: seq<bool>, address: string, idx: nat, k: nat, j: nat)
    requires |fails| == 5 && k <= j < 5
    ensures Count(ChecksFrom(fails, address, idx, k), j, idx + 2) == if fails[j] then 1 else 0
    decreases 5 - k
  {
    var rest := ChecksFrom(fails, address, idx, k + 1);
    var head := if fails[k] then [CheckIssue(address, idx, k)] else [];
    assert ChecksFrom(fails, address, idx, k) == head + rest;
    CountAppend(head, rest, j, idx + 2);
    if j == k {
      CountAbsent(rest, j, idx + 2);
    } else {
      ChecksFromCount(fails, address, idx, k + 1, j);
    }
  }

  /** The per-row issues of the entry at 0-based position `idx`: the five checks
      in the order the source runs them (missing address, function, name, data
      type, then an address that is not an integer), reported against row
      `idx + 2`. */
  function RowIssues(e: RegisterEntry, idx: nat): (r: seq<ValidationIssue>)
    ensures forall i :: 0 <= i < |r| ==> r[i].rowIndex == Some(idx + 2) && Rank(r[i].message) < 5
    ensures forall i :: 0 <= i < |r| ==>
      CheckFails(e, Rank(r[i].message)) && r[i] == CheckIssue(e.address, idx, Rank(r[i].message))
    ensures forall p, q :: 0 <= p < q < |r| ==> Rank(r[p].message) < Rank(r[q].message)
  {
    ChecksFrom(Failures(e), e.address, idx, 0)
  }

  /** Each failing check gives exactly one issue for the row and a passing
      check gives none. */
  lemma RowIssuesCount(e: RegisterEntry, idx: nat, k: nat)
    requires k < 5
    ensures Count(RowIssues(e, idx), k, idx + 2) == if CheckFails(e, k) then 1 else 0
  {
    ChecksFromCount(Failures(e), e.address, idx, 0, k);
  }

  /** `x` is the issue a failing check reports for a row of `es`: check
      `Rank(x.message)` fails for that row, and `x` carries the severity and
      address `CheckIssue` gives that check. */
  predicate RowIssueOf(es: seq<RegisterEntry>, x: ValidationIssue) {
    && Rank(x.message) < 5 && x.rowIndex.Some? && 2 <= x.rowIndex.value < |es| + 2
    && CheckFails(es[x.rowIndex.value - 2], Rank(x.message))
    && x == CheckIssue(es[x.rowIndex.value - 2].address, x.rowIndex.value - 2, Rank(x.message))
  }

  /** An issue of a leading part of the table is one of the whole table. */
  lemma RowIssueOfPrefix(es: seq<RegisterEntry>, n: nat, x: ValidationIssue)
    requires n <= |es| && RowIssueOf(es[..n], x)
    ensures RowIssueOf(es, x)
  {
    assert es[..n][x.rowIndex.value - 2] == es[x.rowIndex.value - 2];
  }

  /** The issues of the leading rows followed by those of the last row are
      all issues of the table. */
  lemma RowIssuesOfLast(es: seq<RegisterEntry>, prefix: seq<ValidationIssue>, last: seq<ValidationIssue>)
    requires |es| > 0
    requires forall p :: 0 <= p < |prefix| ==> RowIssueOf(es[..|es| - 1], prefix[p])
    requires last == RowIssues(es[|es| - 1], |es| - 1)
    ensures forall p :: 0 <= p < |prefix + last| ==> RowIssueOf(es, (prefix + last)[p])
  {
    forall p | 0 <= p < |prefix + last|
      ensures RowIssueOf(es, (prefix + last)[p])
    {
      if p < |prefix| {
        RowIssueOfPrefix(es, |es| - 1, prefix[p]);
      } else {
        assert (prefix + last)[p] == last[p - |prefix|];
      }
    }
  }

  /** The per-row issues of the whole table, row after row: all reported
      against rows of the table, in table order and, within a row, in check order. */
  function PerRowIssues(es: seq<RegisterEntry>): (r: seq<ValidationIssue>)
    ensures forall p :: 0 <= p < |r| ==>
      Rank(r[p].message) < 5 && r[p].rowIndex.Some? && 2 <= r[p].rowIndex.value < |es| + 2
    ensures forall p :: 0 <= p < |r| ==> RowIssueOf(es, r[p])
    ensures forall p, q :: 0 <= p < q < |r| ==>
      || r[p].rowIndex.value < r[q].rowIndex.value
      || (r[p].rowIndex == r[q].rowIndex && Rank(r[p].message) < Rank(r[q].message))
    decreases |es|
  {
    if |es| == 0 then []
    else
      var n := |es| - 1;
      var prefix := PerRowIssues(es[..n]);
      var last := RowIssues(es[n], n);
      var r := prefix + last;
      RowIssuesOfLast(es, prefix, last);
      forall p, q | 0 <= p < q < |r|
        ensures || r[p].rowIndex.value < r[q].rowIndex.value
                || (r[p].rowIndex == r[q].rowIndex && Rank(r[p].message) < Rank(r[q].message))
      {
        if q < |prefix| {
          assert r[p] == prefix[p] && r[q] == prefix[q];
        } else if p >= |prefix| {
          assert r[p] == last[p - |prefix|] && r[q] == last[q - |prefix|];
        } else {
          assert r[p] == prefix[p] && r[q] == last[q - |prefix|];
        }
      }
      r
  }

  // ---------------------------------------------------------------------------
  // Duplicate and gap issues, and the whole validation
  // ---------------------------------------------------------------------------

  /** Each entry's `address_int`, in table order. */
  function AddressInts(es: seq<RegisterEntry>): (addrs: seq<Option<int>>)
    ensures |addrs| == |es| && forall i :: 0 <= i < |es| ==> addrs[i] == AddressInt(es[i])
  {
    seq(|es|, i requires 0 <= i < |es| => AddressInt(es[i]))
  }

  /** The error for row `row` sharing the integer address `a`; the issue's
      address is `str(a)`, not the row's own spelling. */
  function DuplicateIssue(a: int, row: int): ValidationIssue {
    ValidationIssue(Error, DuplicateAddress(a), Some(Printed(a)), Some(row))
  }

  /** One duplicate error per row of `rows`, in order. */
  function DuplicateRun(a: int, rows: seq<int>): (r: seq<ValidationIssue>)
    ensures |r| == |rows|
    decreases |rows|
  {
    if |rows| == 0 then [] else [DuplicateIssue(a, rows[0])] + DuplicateRun(a, rows[1..])
  }

  /** The duplicate errors of one dictionary item: one per row when the
      address has more than one row, none otherwise. */
  function GroupDuplicates(g: AddressGroup): seq<ValidationIssue> {
    if |g.rows| > 1 then DuplicateRun(g.address, g.rows) else []
  }

  /** The duplicate errors of all dictionary items, in dictionary order. */
  function DuplicateIssues(gs: seq<AddressGroup>): seq<ValidationIssue>
    decreases |gs|
  {
    if |gs| == 0 then [] else GroupDuplicates(gs[0]) + DuplicateIssues(gs[1..])
  }

  /** The warning for a gap after address `cur`: it carries `str(cur)` and no row. */
  function GapIssue(cur: int, next: int): ValidationIssue {
    ValidationIssue(Warning, AddressGap(cur, next), Some(Printed(cur)), None)
  }

  function GapIssues(ps: seq<(int, int)>): (r: seq<ValidationIssue>)
    ensures |r| == |ps|
  {
    seq(|ps|, j requires 0 <= j < |ps| => GapIssue(ps[j].0, ps[j].1))
  }

  /** The gap warnings: only when asked for and some address is valid, one
      per neighbouring pair of the sorted addresses that are more than one apart. */
  function GapWarnings(groups: seq<AddressGroup>, checkGaps: bool): seq<ValidationIssue> {
    if checkGaps && |groups| > 0 then GapIssues(GapPairs(Sort(Keys(groups)))) else []
  }

  /** The issue list once the per-row loop has produced `perRow` and the
      valid addresses `addrs`: the duplicate errors follow, then the gap warnings. */
  function Assemble(perRow: seq<ValidationIssue>, addrs: seq<Option<int>>, checkGaps: bool): seq<ValidationIssue> {
    var groups := GroupRows(addrs);
    perRow + DuplicateIssues(groups) + GapWarnings(groups, checkGaps)
  }

  /** `RegisterMap.validate(check_gaps)`: the per-row issues, then the
      duplicate errors, then the gap warnings. An empty map has no issues. */
  function Validate(es: seq<RegisterEntry>, checkGaps: bool): (r: seq<ValidationIssue>)
    ensures |es| == 0 ==> r == []
  {
    Assemble(PerRowIssues(es), AddressInts(es), checkGaps)
  }
}

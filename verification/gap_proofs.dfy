/**
 * The optional gap warnings of `RegisterMap.validate`: one for each pair of
 * valid addresses more than one apart with no valid address between them.
 */
module GapProofs {
  import opened Wrappers
  import opened Sorting
  import opened Grouping
  import opened Validation

  /** No valid address lies strictly between `c` and `n`. */
  predicate NoAddressBetween(addrs: seq<Option<int>>, c: int, n: int) {
    forall x :: Some(x) in addrs ==> x <= c || n <= x
  }

  /** Every gap warning is the warning of its own pair. */
  lemma GapWarningsShape(gs: seq<AddressGroup>, checkGaps: bool)
    ensures forall p :: 0 <= p < |GapWarnings(gs, checkGaps)| ==>
      var x := GapWarnings(gs, checkGaps)[p];
      x.message.AddressGap? && x == GapIssue(x.message.cur, x.message.next)
  {
  }

  /** A pair's warning is among the warnings exactly when the pair is reported. */
  lemma GapIssuesMember(ps: seq<(int, int)>, c: int, n: int)
    ensures GapIssue(c, n) in GapIssues(ps) <==> (c, n) in ps
  {
    if GapIssue(c, n) in GapIssues(ps) {
      var j :| 0 <= j < |ps| && GapIssues(ps)[j] == GapIssue(c, n);
      assert ps[j] == (c, n);
    }
    if (c, n) in ps {
      var j :| 0 <= j < |ps| && ps[j] == (c, n);
      assert GapIssues(ps)[j] == GapIssue(c, n);
    }
  }

  /** With gaps asked for, there is a warning for `c` and `n` exactly when both
      are valid addresses, more than one apart, with no valid address between;
      without, there is none. */
  lemma GapWarningsSpec(addrs: seq<Option<int>>, checkGaps: bool, c: int, n: int)
    ensures GapIssue(c, n) in GapWarnings(GroupRows(addrs), checkGaps) <==>
      checkGaps && Some(c) in addrs && Some(n) in addrs && c + 1 < n && NoAddressBetween(addrs, c, n)
  {
    var gs := GroupRows(addrs);
    var ks := Sort(Keys(gs));
    SortedKeys(addrs);
    GroupRowsKeys(addrs, c);
    if checkGaps && |gs| > 0 {
      GapIssuesMember(GapPairs(ks), c, n);
      assert NothingBetween(ks, c, n) <==> NoAddressBetween(addrs, c, n);
      if (c, n) in GapPairs(ks) {
        GapPairsSound(ks, c, n);
      }
      if c in ks && n in ks && c + 1 < n && NothingBetween(ks, c, n) {
        GapPairsComplete(ks, c, n);
      }
    }
  }

  /** The gap warnings come in ascending order of their lower address. */
  lemma GapWarningsAscending(addrs: seq<Option<int>>, checkGaps: bool)
    ensures forall p, q :: 0 <= p < q < |GapWarnings(GroupRows(addrs), checkGaps)| ==>
      GapWarnings(GroupRows(addrs), checkGaps)[p].message.cur <
      GapWarnings(GroupRows(addrs), checkGaps)[q].message.cur
  {
    var gs := GroupRows(addrs);
    SortedKeys(addrs);
    GapPairsAscending(Sort(Keys(gs)));
  }
}

/**
 * `RegisterMap.filter_text` (bms_register_viewer/model.py): case-insensitive
 * substring search over the seven fields of each entry.
 */
module Filter {
  import opened Text
  import opened Registers
  import opened Sequences

  /** The text searched for an entry: its seven fields joined by single spaces. */
  function Haystack(e: RegisterEntry): string {
    Join(Fields(e), " ")
  }

  /** The query as `filter_text` searches for it: stripped, then lower-cased. */
  function Needle(query: string): (n: string)
    ensures n == "" <==> Strip(query) == ""
  {
    Lower(Strip(query))
  }

  /** An entry matches when the needle occurs in its lower-cased haystack. */
  predicate Matches(e: RegisterEntry, needle: string) {
    Contains(needle, Lower(Haystack(e)))
  }

  /** The entries of `es` that match `needle`, in their original order: each one
      as many times as it occurs in `es` if it matches, and not at all otherwise. */
  function Keep(es: seq<RegisterEntry>, needle: string): (r: seq<RegisterEntry>)
    ensures IsSubsequence(r, es)
    ensures forall e :: multiset(r)[e] == if Matches(e, needle) then multiset(es)[e] else 0
    decreases |es|
  {
    if |es| == 0 then []
    else
      var rest := Keep(es[1..], needle);
      assert es == [es[0]] + es[1..];
      if Matches(es[0], needle) then
        assert ([es[0]] + rest)[1..] == rest;
        [es[0]] + rest
      else
        rest
  }

  /** `filter_text(text)`: a blank query keeps the whole table; otherwise the
      entries whose haystack contains the needle, in table order. Either way the
      result is the order-preserving selection of exactly the matching entries. */
  function FilterText(es: seq<RegisterEntry>, query: string): (r: seq<RegisterEntry>)
    ensures Strip(query) == "" ==> r == es
    ensures IsSubsequence(r, es)
    ensures forall e :: multiset(r)[e] == if Matches(e, Needle(query)) then multiset(es)[e] else 0
  {
    var needle := Needle(query);
    if needle == "" then
      SubsequenceReflexive(es);
      assert forall e :: Matches(e, needle) by {
        forall e
          ensures Matches(e, needle)
        {
          EmptyContained(Lower(Haystack(e)));
        }
      }
      es
    else
      Keep(es, needle)
  }

  /** Keeping the matches of an already filtered sequence changes nothing. */
  lemma {:induction false} KeepIdempotent(es: seq<RegisterEntry>, needle: string)
    ensures Keep(Keep(es, needle), needle) == Keep(es, needle)
    decreases |es|
  {
    if |es| > 0 {
      KeepIdempotent(es[1..], needle);
      var rest := Keep(es[1..], needle);
      if Matches(es[0], needle) {
        assert ([es[0]] + rest)[1..] == rest;
      }
    }
  }

  /** Filtering the result of a filter with the same query gives the same result. */
  lemma FilterTextIdempotent(es: seq<RegisterEntry>, query: string)
    ensures FilterText(FilterText(es, query), query) == FilterText(es, query)
  {
    if Needle(query) != "" {
      KeepIdempotent(es, Needle(query));
    }
  }

  lemma LowerAppend(a: string, b: string)
    ensures Lower(a + b) == Lower(a) + Lower(b)
  {
  }

  lemma {:induction false} ContainsInSuffix(n: string, a: string, b: string)
    requires Contains(n, b)
    ensures Contains(n, a + b)
  {
    var i :| OccursAt(n, b, i);
    assert (a + b)[|a| + i..|a| + i + |n|] == b[i..i + |n|];
    assert OccursAt(n, a + b, |a| + i);
  }

  lemma {:induction false} ContainsInPrefix(n: string, a: string, b: string)
    requires Contains(n, a)
    ensures Contains(n, a + b)
  {
    var i :| OccursAt(n, a, i);
    assert (a + b)[i..i + |n|] == a[i..i + |n|];
    assert OccursAt(n, a + b, i);
  }

  /** The needle occurring in a field's lower-cased text is a match for `sep`-joined
      parts, wherever in the list that field is. */
  lemma {:induction false} ContainsInJoin(n: string, parts: seq<string>, sep: string, f: int)
    requires 0 <= f < |parts| && Contains(n, Lower(parts[f]))
    ensures Contains(n, Lower(Join(parts, sep)))
    decreases |parts|
  {
    if |parts| > 1 {
      var tail := Join(parts[1..], sep);
      LowerAppend(parts[0] + sep, tail);
      LowerAppend(parts[0], sep);
      if f == 0 {
        ContainsInPrefix(n, Lower(parts[0]), Lower(sep));
        ContainsInPrefix(n, Lower(parts[0]) + Lower(sep), Lower(tail));
      } else {
        ContainsInJoin(n, parts[1..], sep, f - 1);
        ContainsInSuffix(n, Lower(parts[0] + sep), Lower(tail));
      }
    }
  }

  /** A query found in any single field, ignoring case, selects the entry. */
  lemma FieldMatchSelects(es: seq<RegisterEntry>, query: string, i: int, f: int)
    requires 0 <= i < |es| && 0 <= f < 7
    requires Contains(Needle(query), Lower(Fields(es[i])[f]))
    ensures es[i] in FilterText(es, query)
  {
    ContainsInJoin(Needle(query), Fields(es[i]), " ", f);
    assert es[i] in multiset(es);
  }
}

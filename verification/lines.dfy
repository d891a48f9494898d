/**
 * Documents are lists of lines joined with a line break. The readers in this
 * model cut a document back into lines and locate a heading line.
 */
module Lines {
  import opened Wrappers
  import opened Text

  /** `s.split(c)`: the pieces between occurrences of `c`; one more piece than
      there are occurrences. */
  function Split(s: string, c: char): (r: seq<string>)
    ensures |r| > 0
    decreases |s|
  {
    if |s| == 0 then [""]
    else
      var rest := Split(s[1..], c);
      if s[0] == c then [""] + rest else [[s[0]] + rest[0]] + rest[1..]
  }

  /** Text without the separator is a single piece. */
  lemma {:induction false} SplitNoSeparator(s: string, c: char)
    requires c !in s
    ensures Split(s, c) == [s]
    decreases |s|
  {
    if |s| > 0 {
      assert c !in s[1..];
      SplitNoSeparator(s[1..], c);
      assert [s[0]] + s[1..] == s;
    }
  }

  /** A separator splits the text into the pieces of either side. */
  lemma {:induction false} SplitAround(x: string, y: string, c: char)
    ensures Split(x + [c] + y, c) == Split(x, c) + Split(y, c)
    decreases |x|
  {
    if |x| == 0 {
      assert x + [c] + y == [c] + y;
      assert ([c] + y)[1..] == y;
    } else {
      assert (x + [c] + y)[1..] == x[1..] + [c] + y;
      SplitAround(x[1..], y, c);
    }
  }

  /** Joining two non-empty lists of lines. */
  lemma {:induction false} JoinAppend(a: seq<string>, b: seq<string>, sep: string)
    requires |a| > 0 && |b| > 0
    ensures Join(a + b, sep) == Join(a, sep) + sep + Join(b, sep)
    decreases |a|
  {
    if |a| == 1 {
      assert (a + b)[1..] == b;
    } else {
      assert (a + b)[1..] == a[1..] + b;
      JoinAppend(a[1..], b, sep);
    }
  }

  /** No element of `parts` contains `c`. */
  predicate FreeOf(parts: seq<string>, c: char) {
    forall i :: 0 <= i < |parts| ==> c !in parts[i]
  }

  /** Splitting undoes joining when no part holds the separator. */
  lemma {:induction false} SplitJoin(parts: seq<string>, c: char)
    requires |parts| > 0 && FreeOf(parts, c)
    ensures Split(Join(parts, [c]), c) == parts
    decreases |parts|
  {
    SplitNoSeparator(parts[0], c);
    if |parts| > 1 {
      SplitJoin(parts[1..], c);
      SplitAround(parts[0], Join(parts[1..], [c]), c);
    }
  }

  /** Splitting a joined document whose tail lines are free of the separator
      gives the head's pieces followed by the tail lines themselves, whatever
      the head lines hold. */
  lemma SplitJoinTail(head: seq<string>, tail: seq<string>, c: char)
    requires |head| > 0 && |tail| > 0 && FreeOf(tail, c)
    ensures Split(Join(head + tail, [c]), c) == Split(Join(head, [c]), c) + tail
  {
    JoinAppend(head, tail, [c]);
    SplitAround(Join(head, [c]), Join(tail, [c]), c);
    SplitJoin(tail, c);
  }

  /** The index of the last occurrence of `x` in `s`. */
  function LastIndexOf<T(==)>(s: seq<T>, x: T): (k: Option<nat>)
    ensures k.Some? ==> k.value < |s| && s[k.value] == x && x !in s[k.value + 1..]
    ensures k.None? ==> x !in s
    decreases |s|
  {
    if |s| == 0 then None
    else if s[|s| - 1] == x then Some(|s| - 1)
    else LastIndexOf(s[..|s| - 1], x)
  }

  /** Locating the last occurrence of a line. */
  lemma {:induction false} LastIndexOfSplit<T>(p: seq<T>, x: T, t: seq<T>)
    requires x !in t
    ensures LastIndexOf(p + [x] + t, x) == Some(|p|)
    decreases |t|
  {
    var s := p + [x] + t;
    if |t| > 0 {
      assert s[|s| - 1] == t[|t| - 1];
      assert s[..|s| - 1] == p + [x] + t[..|t| - 1];
      LastIndexOfSplit(p, x, t[..|t| - 1]);
    }
  }

  /** The last `x` in `pre + t`, when `t` is `a`, then `x`, then lines
      without `x`: it is the one `t` brings, so the lines from there on
      are `t` again. */
  lemma LastIndexAfter<T>(pre: seq<T>, a: seq<T>, x: T, after: seq<T>, t: seq<T>)
    requires t == a + [x] + after && x !in after
    ensures LastIndexOf(pre + t, x) == Some(|pre| + |a|) && (pre + t)[|pre|..] == t
  {
    var p := pre + a;
    assert pre + t == p + [x] + after by {
      assert pre + (a + [x] + after) == pre + a + [x] + after;
    }
    LastIndexOfSplit(p, x, after);
  }

  /** The text of `line` between the prefix `pre` and the suffix `post`, if
      it has both. */
  function Enclosed(line: string, pre: string, post: string): (r: Option<string>)
    ensures r.Some? ==> line == pre + r.value + post
  {
    if |line| >= |pre| + |post| && line[..|pre|] == pre && line[|line| - |post|..] == post
    then Some(line[|pre|..|line| - |post|])
    else None
  }

  lemma EnclosedOf(pre: string, x: string, post: string)
    ensures Enclosed(pre + x + post, pre, post) == Some(x)
  {
    var line := pre + x + post;
    assert line[..|pre|] == pre;
    assert line[|line| - |post|..] == post;
    assert line[|pre|..|line| - |post|] == x;
  }

  /** A line that differs from the prefix at some position is not enclosed by it. */
  lemma EnclosedMismatch(line: string, pre: string, post: string, i: nat)
    requires i < |pre| && i < |line| && line[i] != pre[i]
    ensures Enclosed(line, pre, post).None?
  {
    if |line| >= |pre| + |post| {
      assert line[..|pre|][i] != pre[i];
    }
  }

  lemma FreeOfAppend(a: seq<string>, b: seq<string>, c: char)
    requires FreeOf(a, c) && FreeOf(b, c)
    ensures FreeOf(a + b, c)
  {
    forall i | 0 <= i < |a + b|
      ensures c !in (a + b)[i]
    {
      if i >= |a| {
        assert (a + b)[i] == b[i - |a|];
      }
    }
  }

  /** Lines that end with an empty one join to text ending in the separator. */
  lemma {:induction false} JoinEndsWithSeparator(parts: seq<string>, sep: string)
    requires |parts| >= 2 && parts[|parts| - 1] == ""
    ensures var r := Join(parts, sep); |r| >= |sep| && r[|r| - |sep|..] == sep
    decreases |parts|
  {
    var r := Join(parts, sep);
    var t := Join(parts[1..], sep);
    if |parts| == 2 {
      assert t == "";
      assert r == parts[0] + sep;
    } else {
      JoinEndsWithSeparator(parts[1..], sep);
      assert r == parts[0] + sep + t;
      assert r[|r| - |sep|..] == t[|t| - |sep|..];
    }
  }

  /** Joined text ends with the last part. */
  lemma {:induction false} JoinEndsWithLast(parts: seq<string>, sep: string)
    requires |parts| > 0
    ensures var r := Join(parts, sep); var l := parts[|parts| - 1];
            |r| >= |l| && r[|r| - |l|..] == l
    decreases |parts|
  {
    if |parts| > 1 {
      JoinEndsWithLast(parts[1..], sep);
      var t := Join(parts[1..], sep);
      var l := parts[|parts| - 1];
      assert Join(parts, sep) == parts[0] + sep + t;
      assert (parts[0] + sep + t)[|parts[0] + sep + t| - |l|..] == t[|t| - |l|..];
    }
  }
}

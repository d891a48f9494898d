/**
 * `generate_markdown` and `_markdown_row_for_entry` of
 * bms_register_viewer/export.py, together with a reader for the table they
 * write: the reader is this model's statement of what the escaping and the
 * row layout are for, namely that every entry can be read back unchanged.
 */
module Markdown {
  import opened Wrappers
  import opened Text
  import opened Registers
  import opened Metadata
  import opened Lines

  // ---------------------------------------------------------------- escaping

  /** The cell escape: every `|` becomes `\|`, so a field cannot end its cell. */
  function MdEscape(s: string): string {
    ReplaceChar(s, '|', "\\|")
  }

  /** Every `|` in `s` is preceded by a backslash. */
  predicate PipesEscaped(s: string) {
    forall i :: 0 <= i < |s| && s[i] == '|' ==> i > 0 && s[i - 1] == '\\'
  }

  /** Escaped text holds no bare pipe. */
  lemma {:induction false} MdEscapeEscapesPipes(s: string)
    ensures PipesEscaped(MdEscape(s))
    decreases |s|
  {
    if |s| > 0 {
      var h := if s[0] == '|' then "\\|" else [s[0]];
      var t := MdEscape(s[1..]);
      MdEscapeEscapesPipes(s[1..]);
      assert MdEscape(s) == h + t;
      forall i | 0 <= i < |h + t| && (h + t)[i] == '|'
        ensures i > 0 && (h + t)[i - 1] == '\\'
      {
        if i >= |h| {
          assert (h + t)[i] == t[i - |h|];
          if i - |h| > 0 {
            assert (h + t)[i - 1] == t[i - |h| - 1];
          }
        }
      }
    }
  }

  /** How a table reader takes a cell's text: `\|` stands for `|`, every other
      character for itself. */
  function MdUnescape(s: string): string
    decreases |s|
  {
    if |s| == 0 then ""
    else if |s| >= 2 && s[0] == '\\' && s[1] == '|' then "|" + MdUnescape(s[2..])
    else [s[0]] + MdUnescape(s[1..])
  }

  /** The escape loses nothing: reading an escaped field gives the field. */
  lemma {:induction false} MdEscapeRoundTrip(s: string)
    ensures MdUnescape(MdEscape(s)) == s
    decreases |s|
  {
    if |s| > 0 {
      var t := MdEscape(s[1..]);
      MdEscapeRoundTrip(s[1..]);
      MdEscapeEscapesPipes(s[1..]);
      if s[0] == '|' {
        assert MdEscape(s) == "\\|" + t;
        assert ("\\|" + t)[2..] == t;
      } else {
        assert MdEscape(s) == [s[0]] + t;
        assert ([s[0]] + t)[1..] == t;
        if s[0] == '\\' && |t| > 0 {
          assert t[0] != '|';
        }
      }
    }
  }

  // ------------------------------------------------------------------- cells

  /** `s[i]` ends a cell: a `|` that no backslash escapes. */
  predicate IsSeparator(s: string, i: int) {
    0 <= i < |s| && s[i] == '|' && (i == 0 || s[i - 1] != '\\')
  }

  /** The first separator at or after `i`, or `|s|` when there is none. */
  function FirstSeparator(s: string, i: nat): (k: nat)
    requires i <= |s|
    ensures i <= k <= |s|
    ensures k < |s| ==> IsSeparator(s, k)
    ensures forall j :: i <= j < k ==> !IsSeparator(s, j)
    decreases |s| - i
  {
    if i == |s| then i
    else if IsSeparator(s, i) then i
    else FirstSeparator(s, i + 1)
  }

  /** A table line cut at its separators: the text before the first one,
      between consecutive ones, and after the last one. */
  function SplitCells(s: string): (cs: seq<string>)
    ensures |cs| > 0
    decreases |s|
  {
    var k := FirstSeparator(s, 0);
    if k == |s| then [s] else [s[..k]] + SplitCells(s[k + 1..])
  }

  /** Text that can stand before a separator without changing where cells end. */
  predicate CellSafe(x: string) {
    PipesEscaped(x) && (|x| == 0 || x[|x| - 1] != '\\')
  }

  lemma SplitAtSeparator(x: string, y: string)
    requires CellSafe(x)
    ensures SplitCells(x + "|" + y) == [x] + SplitCells(y)
  {
    var s := x + "|" + y;
    assert IsSeparator(s, |x|);
    forall j | 0 <= j < |x|
      ensures !IsSeparator(s, j)
    {
      assert s[j] == x[j];
      if j > 0 {
        assert s[j - 1] == x[j - 1];
      }
    }
    var k := FirstSeparator(s, 0);
    assert k == |x|;
    assert s[..k] == x;
    assert s[k + 1..] == y;
  }

  /** One cell as the row writes it: the escaped field padded by a space on
      each side. */
  function MdCell(f: string): string {
    " " + MdEscape(f) + " "
  }

  lemma MdCellSafe(f: string)
    ensures CellSafe(MdCell(f))
  {
    var x := MdEscape(f);
    MdEscapeEscapesPipes(f);
    var c := " " + x + " ";
    forall i | 0 <= i < |c| && c[i] == '|'
      ensures i > 0 && c[i - 1] == '\\'
    {
      assert 0 < i < |c| - 1;
      assert c[i] == x[i - 1];
      if i > 1 {
        assert c[i - 1] == x[i - 2];
      }
    }
  }

  /** The cells of `fs`, each followed by a separator. */
  function RowText(fs: seq<string>): string
    decreases |fs|
  {
    if |fs| == 0 then "" else MdCell(fs[0]) + "|" + RowText(fs[1..])
  }

  /** The padded cells of `fs`, in order. */
  function MdCells(fs: seq<string>): (cs: seq<string>)
    ensures |cs| == |fs|
    decreases |fs|
  {
    if |fs| == 0 then [] else [MdCell(fs[0])] + MdCells(fs[1..])
  }

  lemma {:induction false} SplitRowText(fs: seq<string>)
    ensures SplitCells(RowText(fs)) == MdCells(fs) + [""]
    decreases |fs|
  {
    if |fs| == 0 {
      assert FirstSeparator("", 0) == 0;
    } else {
      MdCellSafe(fs[0]);
      SplitAtSeparator(MdCell(fs[0]), RowText(fs[1..]));
      SplitRowText(fs[1..]);
    }
  }

  // --------------------------------------------------------------------- row

  /** `_markdown_row_for_entry`: the seven escaped fields between pipes. */
  function MarkdownRow(e: RegisterEntry): string {
    "| " + MdEscape(e.address)
    + " | " + MdEscape(e.functionCode)
    + " | " + MdEscape(e.name)
    + " | " + MdEscape(e.unit)
    + " | " + MdEscape(e.scaling)
    + " | " + MdEscape(e.dataType)
    + " | " + MdEscape(e.notes) + " |"
  }

  lemma {:induction false} RowTextSnoc(fs: seq<string>, f: string)
    ensures RowText(fs + [f]) == RowText(fs) + MdCell(f) + "|"
    decreases |fs|
  {
    if |fs| == 0 {
      assert ([] + [f])[1..] == [];
    } else {
      assert (fs + [f])[1..] == fs[1..] + [f];
      RowTextSnoc(fs[1..], f);
    }
  }

  /** The row text up to the `k`-th field's escaped text. */
  function RowPrefix(fs: seq<string>, k: nat): string
    requires k < |fs|
  {
    "|" + RowText(fs[..k]) + " " + MdEscape(fs[k])
  }

  lemma RowPrefixStep(fs: seq<string>, k: nat)
    requires k + 1 < |fs|
    ensures RowPrefix(fs, k) + " | " + MdEscape(fs[k + 1]) == RowPrefix(fs, k + 1)
  {
    assert fs[..k + 1] == fs[..k] + [fs[k]];
    RowTextSnoc(fs[..k], fs[k]);
    NextCell("|" + RowText(fs[..k]), MdEscape(fs[k]), MdEscape(fs[k + 1]));
  }

  /** Closing one cell and opening the next, regrouped as whole cells. */
  lemma NextCell(q: string, x: string, y: string)
    ensures q + " " + x + " | " + y == (q + (" " + x + " ") + "|") + " " + y
  {
  }

  lemma CloseCell(q: string, x: string)
    ensures q + " " + x + " |" == q + (" " + x + " ") + "|"
  {
  }

  lemma RowPrefixLast(p: seq<string>, f: string)
    ensures "|" + RowText(p) + " " + MdEscape(f) + " |" == "|" + RowText(p + [f])
  {
    RowTextSnoc(p, f);
    CloseCell("|" + RowText(p), MdEscape(f));
  }

  /** The row is a leading pipe followed by the seven cells, each closed by a pipe. */
  lemma MarkdownRowLayout(e: RegisterEntry)
    ensures MarkdownRow(e) == "|" + RowText(Fields(e))
  {
    var fs := Fields(e);
    assert fs[..0] == [];
    assert RowPrefix(fs, 0) == "| " + MdEscape(e.address);
    RowPrefixStep(fs, 0);
    RowPrefixStep(fs, 1);
    RowPrefixStep(fs, 2);
    RowPrefixStep(fs, 3);
    RowPrefixStep(fs, 4);
    RowPrefixStep(fs, 5);
    assert fs[..6] + [fs[6]] == fs;
    RowPrefixLast(fs[..6], fs[6]);
  }

  /** The field a cell holds, if it is padded as the writer pads it. */
  function ParseMdCell(c: string): Option<string> {
    if |c| >= 2 && c[0] == ' ' && c[|c| - 1] == ' ' then Some(MdUnescape(c[1..|c| - 1])) else None
  }

  /** The fields of a run of cells, if every one of them reads. */
  function ParseMdCells(cs: seq<string>): (r: Option<seq<string>>)
    ensures r.Some? ==> |r.value| == |cs|
    decreases |cs|
  {
    if |cs| == 0 then Some([])
    else match (ParseMdCell(cs[0]), ParseMdCells(cs[1..]))
      case (Some(f), Some(fs)) => Some([f] + fs)
      case _ => None
  }

  /** Reads a table line back into an entry: seven cells between a leading
      and a trailing pipe. */
  function ParseMdRow(line: string): Option<RegisterEntry> {
    var cs := SplitCells(line);
    if |cs| == 9 && cs[0] == "" && cs[8] == "" then
      match ParseMdCells(cs[1..8])
      case Some(fs) => Some(EntryOfFields(fs))
      case None => None
    else None
  }

  /** One cell reads back as the field it was written from. */
  lemma ParseMdCellOf(f: string)
    ensures ParseMdCell(MdCell(f)) == Some(f)
  {
    var c := MdCell(f);
    MdEscapeRoundTrip(f);
    assert c[1..|c| - 1] == MdEscape(f);
  }

  lemma ParseMdCellsCons(c: string, cs: seq<string>, fs: seq<string>)
    requires |fs| > 0
    requires ParseMdCell(c) == Some(fs[0])
    requires ParseMdCells(cs) == Some(fs[1..])
    ensures ParseMdCells([c] + cs) == Some(fs)
  {
    assert ([c] + cs)[1..] == cs;
    assert [fs[0]] + fs[1..] == fs;
  }

  lemma {:induction false} ParseMdCellsOf(fs: seq<string>)
    ensures ParseMdCells(MdCells(fs)) == Some(fs)
    decreases |fs|
  {
    if |fs| > 0 {
      ParseMdCellOf(fs[0]);
      ParseMdCellsOf(fs[1..]);
      ParseMdCellsCons(MdCell(fs[0]), MdCells(fs[1..]), fs);
    }
  }

  /** A leading pipe is a separator, so it ends an empty first cell. */
  lemma SplitLeadingPipe(y: string)
    ensures SplitCells("|" + y) == [""] + SplitCells(y)
  {
    var s := "|" + y;
    assert IsSeparator(s, 0);
    assert FirstSeparator(s, 0) == 0;
    assert s[1..] == y;
  }

  /** The cells of a leading pipe followed by cells closed by pipes. */
  lemma SplitRow(fs: seq<string>)
    ensures SplitCells("|" + RowText(fs)) == [""] + MdCells(fs) + [""]
  {
    SplitLeadingPipe(RowText(fs));
    SplitRowText(fs);
  }

  /** A leading pipe and seven cells read back as the seven fields. */
  lemma ParseRowText(fs: seq<string>)
    requires |fs| == 7
    ensures ParseMdRow("|" + RowText(fs)) == Some(EntryOfFields(fs))
  {
    var cs := MdCells(fs);
    var parts := SplitCells("|" + RowText(fs));
    SplitRow(fs);
    assert parts == [""] + cs + [""];
    assert parts[1..8] == cs;
    ParseMdCellsOf(fs);
  }

  /** Every entry's row reads back as that entry, whatever its fields hold. */
  lemma MarkdownRowRoundTrip(e: RegisterEntry)
    ensures ParseMdRow(MarkdownRow(e)) == Some(e)
  {
    MarkdownRowLayout(e);
    ParseRowText(Fields(e));
  }

  /** A row begins with a pipe. */
  lemma MarkdownRowStartsWithPipe(e: RegisterEntry)
    ensures |MarkdownRow(e)| > 0 && MarkdownRow(e)[0] == '|'
  {
  }

  /** A row holds a line break only where a field does. */
  lemma MarkdownRowOneLine(e: RegisterEntry, c: char)
    requires c != '|' && c != '\\' && c != ' '
    requires FreeOf(Fields(e), c)
    ensures c !in MarkdownRow(e)
  {
    assert c !in Fields(e)[0] && c !in Fields(e)[1] && c !in Fields(e)[2] && c !in Fields(e)[3];
    assert c !in Fields(e)[4] && c !in Fields(e)[5] && c !in Fields(e)[6];
  }
}

/**
 * The HTML escape and the table row of `generate_html`
 * (bms_register_viewer/export.py), with a reader that takes a row apart
 * again.
 */
module Html {
  import opened Wrappers
  import opened Text
  import opened Registers
  import opened Lines
  import opened Sequences

  // ---------------------------------------------------------------- escaping

  /** `esc`: `&` is replaced first, then `<`, then `>`, each over the whole
      text, so the ampersands the later steps introduce are left alone. */
  function HtmlEscape(s: string): string {
    ReplaceChar(ReplaceChar(ReplaceChar(s, '&', "&amp;"), '<', "&lt;"), '>', "&gt;")
  }

  /** The entity for one character, or the character itself. */
  function EscChar(c: char): string {
    if c == '&' then "&amp;" else if c == '<' then "&lt;" else if c == '>' then "&gt;" else [c]
  }

  /** Escaping character by character, the reference for the three passes. */
  function EscapeEach(s: string): string
    decreases |s|
  {
    if |s| == 0 then "" else EscChar(s[0]) + EscapeEach(s[1..])
  }

  lemma EscapeAmpByPasses(c: char)
    requires c == '&'
    ensures HtmlEscape([c]) == "&amp;"
  {
    ReplaceCharSingle(c, '&', "&amp;");
    assert '<' !in "&amp;" && '>' !in "&amp;";
    LaterPassesKeep("&amp;");
  }

  /** The `<` and `>` passes leave a text without angle brackets alone. */
  lemma LaterPassesKeep(s: string)
    requires '<' !in s && '>' !in s
    ensures ReplaceChar(ReplaceChar(s, '<', "&lt;"), '>', "&gt;") == s
  {
    ReplaceCharAbsent(s, '<', "&lt;");
    ReplaceCharAbsent(s, '>', "&gt;");
  }

  lemma EscapeLtByPasses(c: char)
    requires c == '<'
    ensures HtmlEscape([c]) == "&lt;"
  {
    ReplaceCharSingle(c, '&', "&amp;");
    ReplaceCharSingle(c, '<', "&lt;");
    ReplaceCharAbsent("&lt;", '>', "&gt;");
  }

  lemma EscapeOtherByPasses(c: char)
    requires c != '&' && c != '<'
    ensures HtmlEscape([c]) == if c == '>' then "&gt;" else [c]
  {
    ReplaceCharSingle(c, '&', "&amp;");
    ReplaceCharSingle(c, '<', "&lt;");
    ReplaceCharSingle(c, '>', "&gt;");
  }

  lemma EscapeCharByPasses(c: char)
    ensures HtmlEscape([c]) == EscChar(c)
  {
    if c == '&' {
      EscapeAmpByPasses(c);
    } else if c == '<' {
      EscapeLtByPasses(c);
    } else {
      EscapeOtherByPasses(c);
    }
  }

  lemma HtmlEscapeAppend(a: string, b: string)
    ensures HtmlEscape(a + b) == HtmlEscape(a) + HtmlEscape(b)
  {
    ReplaceCharAppend(a, b, '&', "&amp;");
    var a1 := ReplaceChar(a, '&', "&amp;");
    var b1 := ReplaceChar(b, '&', "&amp;");
    ReplaceCharAppend(a1, b1, '<', "&lt;");
    ReplaceCharAppend(ReplaceChar(a1, '<', "&lt;"), ReplaceChar(b1, '<', "&lt;"), '>', "&gt;");
  }

  /** The three whole-text passes escape each character on its own: no entity
      one pass writes is rewritten by a later one. */
  lemma {:induction false} HtmlEscapeEach(s: string)
    ensures HtmlEscape(s) == EscapeEach(s)
    decreases |s|
  {
    if |s| == 0 {
    } else {
      assert s == [s[0]] + s[1..];
      HtmlEscapeAppend([s[0]], s[1..]);
      EscapeCharByPasses(s[0]);
      HtmlEscapeEach(s[1..]);
    }
  }

  /** Escaped text holds no angle bracket, so it cannot open or close a tag. */
  lemma HtmlEscapeNoTags(s: string)
    ensures '<' !in HtmlEscape(s) && '>' !in HtmlEscape(s)
  {
    var a := ReplaceChar(s, '&', "&amp;");
    var b := ReplaceChar(a, '<', "&lt;");
    assert '<' !in b;
    assert '<' !in "&gt;";
  }

  /** The escape introduces only ampersands, semicolons and the letters of
      the entity names: any other character is in the result only if it was
      in the input. */
  lemma HtmlEscapeKeeps(s: string, c: char)
    requires c !in "&amp;" && c !in "&lt;" && c !in "&gt;"
    requires c !in s
    ensures c !in HtmlEscape(s)
  {
    var a := ReplaceChar(s, '&', "&amp;");
    var b := ReplaceChar(a, '<', "&lt;");
    assert c !in a;
    assert c !in b;
  }

  /** How a browser reads the three entities back. */
  function HtmlUnescape(s: string): string
    decreases |s|
  {
    if |s| == 0 then ""
    else if |s| >= 5 && s[..5] == "&amp;" then "&" + HtmlUnescape(s[5..])
    else if |s| >= 4 && s[..4] == "&lt;" then "<" + HtmlUnescape(s[4..])
    else if |s| >= 4 && s[..4] == "&gt;" then ">" + HtmlUnescape(s[4..])
    else [s[0]] + HtmlUnescape(s[1..])
  }

  lemma UnescapeAmp(t: string)
    ensures HtmlUnescape("&amp;" + t) == "&" + HtmlUnescape(t)
  {
    var s := "&amp;" + t;
    assert s[..5] == "&amp;" && s[5..] == t;
  }

  lemma UnescapeAngle(c: char, t: string)
    requires c == '<' || c == '>'
    ensures HtmlUnescape(EscChar(c) + t) == [c] + HtmlUnescape(t)
  {
    var h := EscChar(c);
    var s := h + t;
    assert |h| == 4 && h[1] != 'a';
    assert s[..4] == h && s[4..] == t;
    assert s[1] == h[1];
  }

  lemma UnescapePlain(c: char, t: string)
    requires c != '&'
    ensures HtmlUnescape([c] + t) == [c] + HtmlUnescape(t)
  {
    var s := [c] + t;
    assert s[0] == c && s[1..] == t;
  }

  /** The reader takes one escaped character off the front. */
  lemma UnescapeCons(c: char, t: string)
    ensures HtmlUnescape(EscChar(c) + t) == [c] + HtmlUnescape(t)
  {
    if c == '&' {
      UnescapeAmp(t);
    } else if c == '<' || c == '>' {
      UnescapeAngle(c, t);
    } else {
      UnescapePlain(c, t);
    }
  }

  lemma {:induction false} EscapeEachRoundTrip(s: string)
    ensures HtmlUnescape(EscapeEach(s)) == s
    decreases |s|
  {
    if |s| > 0 {
      EscapeEachRoundTrip(s[1..]);
      UnescapeCons(s[0], EscapeEach(s[1..]));
      HeadTail(s);
    }
  }

  /** The escape loses nothing: a reader recovers the original text. */
  lemma HtmlEscapeRoundTrip(s: string)
    ensures HtmlUnescape(HtmlEscape(s)) == s
  {
    HtmlEscapeEach(s);
    EscapeEachRoundTrip(s);
  }

  // ------------------------------------------------------------------- cells

  const NumericCell := "<td class='numeric'>"
  const PlainCell := "<td>"

  /** The opening tag of each column: address and function are numeric. */
  const CellOpens := [NumericCell, NumericCell, PlainCell, PlainCell, PlainCell, PlainCell, PlainCell]

  /** One `<td>` element. */
  function Td(open: string, f: string): string {
    open + HtmlEscape(f) + "</td>"
  }

  /** The cells for fields `fs` with opening tags `opens`. */
  function TdText(opens: seq<string>, fs: seq<string>): string
    requires |opens| == |fs|
    decreases |fs|
  {
    if |fs| == 0 then "" else Td(opens[0], fs[0]) + TdText(opens[1..], fs[1..])
  }

  /** `generate_html`'s row for one entry. */
  function HtmlRow(e: RegisterEntry): string {
    "<tr>"
    + Td(NumericCell, e.address)
    + Td(NumericCell, e.functionCode)
    + Td(PlainCell, e.name)
    + Td(PlainCell, e.unit)
    + Td(PlainCell, e.scaling)
    + Td(PlainCell, e.dataType)
    + Td(PlainCell, e.notes)
    + "</tr>"
  }

  lemma {:induction false} TdTextSnoc(opens: seq<string>, fs: seq<string>, o: string, f: string)
    requires |opens| == |fs|
    ensures TdText(opens + [o], fs + [f]) == TdText(opens, fs) + Td(o, f)
    decreases |fs|
  {
    if |fs| == 0 {
      assert (opens + [o])[1..] == [] && (fs + [f])[1..] == [];
    } else {
      assert (opens + [o])[1..] == opens[1..] + [o];
      assert (fs + [f])[1..] == fs[1..] + [f];
      TdTextSnoc(opens[1..], fs[1..], o, f);
    }
  }

  /** The row text up to and including the `k`-th cell. */
  function RowPrefix(opens: seq<string>, fs: seq<string>, k: nat): string
    requires |opens| == |fs| && k <= |fs|
  {
    "<tr>" + TdText(opens[..k], fs[..k])
  }

  lemma CellStep(opens: seq<string>, fs: seq<string>, k: nat)
    requires |opens| == |fs| && k < |fs|
    ensures RowPrefix(opens, fs, k) + Td(opens[k], fs[k]) == RowPrefix(opens, fs, k + 1)
  {
    assert opens[..k + 1] == opens[..k] + [opens[k]];
    assert fs[..k + 1] == fs[..k] + [fs[k]];
    TdTextSnoc(opens[..k], fs[..k], opens[k], fs[k]);
  }

  /** Text grown one piece at a time: each prefix and the next piece make
      the following prefix, so the last prefix is the first with every piece. */
  lemma Chain7(p: seq<string>, t: seq<string>)
    requires |p| == 8 && |t| == 7
    requires forall k :: 0 <= k < 7 ==> p[k] + t[k] == p[k + 1]
    ensures p[0] + t[0] + t[1] + t[2] + t[3] + t[4] + t[5] + t[6] == p[7]
  {
    assert p[0] + t[0] == p[1];
    assert p[1] + t[1] == p[2];
    assert p[2] + t[2] == p[3];
    assert p[3] + t[3] == p[4];
    assert p[4] + t[4] == p[5];
    assert p[5] + t[5] == p[6];
    assert p[6] + t[6] == p[7];
  }

  lemma CellSteps(os: seq<string>, fs: seq<string>)
    requires |os| == |fs| == 7
    ensures forall k :: 0 <= k < 7 ==> RowPrefix(os, fs, k) + Td(os[k], fs[k]) == RowPrefix(os, fs, k + 1)
  {
    forall k | 0 <= k < 7
      ensures RowPrefix(os, fs, k) + Td(os[k], fs[k]) == RowPrefix(os, fs, k + 1)
    {
      CellStep(os, fs, k);
    }
  }

  lemma RowPrefixEnds(os: seq<string>, fs: seq<string>)
    requires |os| == |fs| == 7
    ensures RowPrefix(os, fs, 0) == "<tr>" && RowPrefix(os, fs, 7) == "<tr>" + TdText(os, fs)
  {
    assert os[..0] == [] && fs[..0] == [];
    assert os[..7] == os && fs[..7] == fs;
  }

  /** Seven cells, one after another, in a row. */
  lemma RowCells(os: seq<string>, fs: seq<string>)
    requires |os| == |fs| == 7
    ensures "<tr>" + TdText(os, fs) + "</tr>"
            == "<tr>" + Td(os[0], fs[0]) + Td(os[1], fs[1]) + Td(os[2], fs[2]) + Td(os[3], fs[3])
               + Td(os[4], fs[4]) + Td(os[5], fs[5]) + Td(os[6], fs[6]) + "</tr>"
  {
    var p := seq(8, k requires 0 <= k < 8 => RowPrefix(os, fs, k));
    var t := seq(7, k requires 0 <= k < 7 => Td(os[k], fs[k]));
    CellSteps(os, fs);
    RowPrefixEnds(os, fs);
    Chain7(p, t);
  }

  /** The row is `<tr>`, the seven cells in column order, and `</tr>`. */
  lemma HtmlRowLayout(e: RegisterEntry)
    ensures HtmlRow(e) == "<tr>" + TdText(CellOpens, Fields(e)) + "</tr>"
  {
    RowCells(CellOpens, Fields(e));
  }

  // ----------------------------------------------------------- reading back

  /** The index of the first `c` in `s`, or `|s|`. */
  function IndexOfChar(s: string, c: char): (k: nat)
    ensures k <= |s|
    ensures k < |s| ==> s[k] == c
    decreases |s|
  {
    if |s| == 0 || s[0] == c then 0 else 1 + IndexOfChar(s[1..], c)
  }

  /** The first `c` is the one right after a text that holds none. */
  lemma {:induction false} IndexOfCharAfter(x: string, y: string, c: char)
    requires c !in x && |y| > 0 && y[0] == c
    ensures IndexOfChar(x + y, c) == |x|
    decreases |x|
  {
    if |x| == 0 {
      assert x + y == y;
    } else {
      assert (x + y)[1..] == x[1..] + y;
      assert c !in x[1..];
      IndexOfCharAfter(x[1..], y, c);
    }
  }

  /** One cell opened by `open`: its text up to the next tag, which must close
      the cell, and what follows. */
  function ParseTd(s: string, open: string): Option<(string, string)> {
    if |s| >= |open| && s[..|open|] == open then
      var body := s[|open|..];
      var k := IndexOfChar(body, '<');
      if |body| - k >= 5 && body[k..k + 5] == "</td>" then Some((HtmlUnescape(body[..k]), body[k + 5..]))
      else None
    else None
  }

  lemma ParseTdOf(open: string, f: string, rest: string)
    ensures ParseTd(Td(open, f) + rest, open) == Some((f, rest))
  {
    var x := HtmlEscape(f);
    var s := open + x + "</td>" + rest;
    assert Td(open, f) + rest == s;
    assert s[..|open|] == open;
    var body := s[|open|..];
    assert body == x + ("</td>" + rest);
    HtmlEscapeNoTags(f);
    IndexOfCharAfter(x, "</td>" + rest, '<');
    var k := IndexOfChar(body, '<');
    assert body[..k] == x;
    assert body[k..k + 5] == "</td>";
    assert body[k + 5..] == rest;
    HtmlEscapeRoundTrip(f);
  }

  /** The fields of a run of cells opened by `opens`, exactly filling `s`. */
  function ParseTds(s: string, opens: seq<string>): (r: Option<seq<string>>)
    ensures r.Some? ==> |r.value| == |opens|
    decreases |opens|
  {
    if |opens| == 0 then (if s == "" then Some([]) else None)
    else match ParseTd(s, opens[0])
      case None => None
      case Some((f, rest)) =>
        match ParseTds(rest, opens[1..])
        case None => None
        case Some(fs) => Some([f] + fs)
  }

  /** A first cell in front of cells that read gives one more field. */
  lemma ParseTdsCons(opens: seq<string>, fs: seq<string>, rest: string)
    requires |opens| == |fs| > 0
    requires ParseTds(rest, opens[1..]) == Some(fs[1..])
    ensures ParseTds(Td(opens[0], fs[0]) + rest, opens) == Some(fs)
  {
    ParseTdOf(opens[0], fs[0], rest);
    assert [fs[0]] + fs[1..] == fs;
  }

  lemma {:induction false} ParseTdsOf(opens: seq<string>, fs: seq<string>)
    requires |opens| == |fs|
    ensures ParseTds(TdText(opens, fs), opens) == Some(fs)
    decreases |fs|
  {
    if |fs| > 0 {
      ParseTdsOf(opens[1..], fs[1..]);
      ParseTdsCons(opens, fs, TdText(opens[1..], fs[1..]));
    }
  }

  /** Reads a table row back into an entry. */
  function ParseHtmlRow(line: string): Option<RegisterEntry> {
    match Enclosed(line, "<tr>", "</tr>")
    case None => None
    case Some(body) =>
      match ParseTds(body, CellOpens)
      case None => None
      case Some(fs) => Some(EntryOfFields(fs))
  }

  /** Every entry's row reads back as that entry, whatever its fields hold. */
  lemma HtmlRowRoundTrip(e: RegisterEntry)
    ensures ParseHtmlRow(HtmlRow(e)) == Some(e)
  {
    HtmlRowLayout(e);
    EnclosedOf("<tr>", TdText(CellOpens, Fields(e)), "</tr>");
    ParseTdsOf(CellOpens, Fields(e));
  }
}

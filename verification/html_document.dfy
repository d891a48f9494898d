/**
 * The whole HTML document of `generate_html`
 * (bms_register_viewer/export.py): a fixed head with the escaped title,
 * an optional metadata list, an optional summary paragraph and the register
 * table, as lines joined by line breaks. As for Markdown, readers take the
 * document apart again and round-trip lemmas say that nothing is lost.
 */
module HtmlDocument {
  import opened Wrappers
  import opened Text
  import opened Registers
  import opened Metadata
  import opened Lines
  import opened Html
  import opened Sequences

  // Fixed lines, written in pieces short enough for the verifier to see
  // that they hold no line break.
  // body { font-family: Arial, sans-serif; font-size: 14px; }
  const BodyStyle := "body { font-family: " + "Arial, sans-serif; " + "font-size: 14px; }"
  // table { border-collapse: collapse; width: 100%; }
  const TableStyle := "table { border-" + "collapse: collapse; " + "width: 100%; }"
  // th, td { border: 1px solid #ccc; padding: 4px 6px; }
  const CellStyle := "th, td { border: " + "1px solid #ccc; " + "padding: 4px 6px; }"
  // th { background: #f0f0f0; text-align: left; }
  const HeaderStyle := "th { background: " + "#f0f0f0; text-align: " + "left; }"
  // td.numeric { text-align: right; }
  const NumericStyle := "td.numeric { " + "text-align: right; }"
  const Style := "<style>" + BodyStyle + TableStyle + CellStyle + HeaderStyle + NumericStyle + "</style>"
  const HeaderCells := "<tr><th>Address</th>" + "<th>Function</th>" + "<th>Name / Description</th>"
  const HeaderMoreCells := "<th>Unit</th>" + "<th>Scaling</th>" + "<th>Data Type</th>" + "<th>Notes</th></tr>"
  // <tr><th>Address</th><th>Function</th><th>Name / Description</th><th>Unit</th><th>Scaling</th><th>Data Type</th><th>Notes</th></tr>
  const HeaderRow := HeaderCells + HeaderMoreCells

  const ItemOpen := "<li><strong>"
  const ValueOpen := "</strong> <code>"
  const DeviceItem := ItemOpen + "Device:" + ValueOpen
  const SourceItem := ItemOpen + "Source file:" + ValueOpen
  const GeneratedItem := ItemOpen + "Generated:" + ValueOpen
  const ItemEnd := "</code></li>"

  /** Everything up to the page heading; the title is escaped in both places. */
  function HeadLines(info: DocInfo): seq<string> {
    DocumentOpen + ["<title>" + HtmlEscape(info.title) + "</title>", Style, "</head>", "<body>",
                    "<h1>" + HtmlEscape(info.title) + "</h1>"]
  }

  /** An item of the metadata list, left out when its value is empty. */
  function ItemLines(tag: string, x: string): seq<string> {
    if x != "" then [tag + HtmlEscape(x) + ItemEnd] else []
  }

  const MetadataOpen := ["<h2>Metadata</h2>", "<ul>"]

  /** The generation time, always listed, and the end of the list. */
  function GeneratedLines(generated: string): seq<string> {
    [GeneratedItem + HtmlEscape(generated) + ItemEnd, "</ul>"]
  }

  /** The metadata list, under the same condition as in Markdown. */
  function HtmlMetadataLines(info: DocInfo): seq<string> {
    if MetadataShown(info) then
      MetadataOpen + ItemLines(DeviceItem, info.deviceName) + ItemLines(SourceItem, info.sourceFile)
      + GeneratedLines(info.generatedAt)
    else []
  }

  function HtmlSummaryLines(info: DocInfo): seq<string> {
    if info.summary != "" then ["<h2>Summary</h2>", "<p>" + HtmlEscape(info.summary) + "</p>"] else []
  }

  const TableOpen := ["<h2>Register Map</h2>", "<table>", "<thead>", HeaderRow, "</thead>", "<tbody>"]
  const TableClose := ["</tbody>", "</table>", "</body>", "</html>"]

  /** One `<tr>` line per entry, in the map's order. */
  function HtmlRows(es: seq<RegisterEntry>): (rows: seq<string>)
    ensures |rows| == |es|
    ensures forall i :: 0 <= i < |es| ==> rows[i] == HtmlRow(es[i])
  {
    seq(|es|, i requires 0 <= i < |es| => HtmlRow(es[i]))
  }

  /** The table from its heading to the end of the document. */
  function HtmlTableLines(es: seq<RegisterEntry>): seq<string> {
    TableOpen + HtmlRows(es) + TableClose
  }

  function HtmlLines(es: seq<RegisterEntry>, info: DocInfo): seq<string> {
    HeadLines(info) + HtmlMetadataLines(info) + HtmlSummaryLines(info) + HtmlTableLines(es)
  }

  const DocumentOpen := ["<!DOCTYPE html>", "<html>", "<head>", "<meta charset=\"utf-8\">"]

  /** `generate_html`, with the clock reading and source name as parameters. */
  function GenerateHtml(es: seq<RegisterEntry>, metadata: Option<map<string, string>>,
                        sourceName: Option<string>, now: string): string
  {
    Join(HtmlLines(es, ResolveMetadata(metadata, sourceName, now)), "\n")
  }

  // ------------------------------------------------------------- reading back

  /** The entries of a run of `<tr>` lines, if every line reads as a row. */
  function ParseHtmlRows(ls: seq<string>): (r: Option<seq<RegisterEntry>>)
    ensures r.Some? ==> |r.value| == |ls|
    decreases |ls|
  {
    if |ls| == 0 then Some([])
    else match (ParseHtmlRow(ls[0]), ParseHtmlRows(ls[1..]))
      case (Some(e), Some(rest)) => Some([e] + rest)
      case _ => None
  }

  lemma HtmlRowsTail(es: seq<RegisterEntry>)
    requires |es| > 0
    ensures HtmlRows(es)[1..] == HtmlRows(es[1..])
  {
  }

  lemma ParseHtmlRowsCons(ls: seq<string>, es: seq<RegisterEntry>)
    requires |ls| > 0 && |es| > 0
    requires ParseHtmlRow(ls[0]) == Some(es[0])
    requires ParseHtmlRows(ls[1..]) == Some(es[1..])
    ensures ParseHtmlRows(ls) == Some(es)
  {
    HeadTail(es);
  }

  lemma {:induction false} ParseHtmlRowsOf(es: seq<RegisterEntry>)
    ensures ParseHtmlRows(HtmlRows(es)) == Some(es)
    decreases |es|
  {
    if |es| > 0 {
      HtmlRowRoundTrip(es[0]);
      HtmlRowsTail(es);
      ParseHtmlRowsOf(es[1..]);
      ParseHtmlRowsCons(HtmlRows(es), es);
    }
  }

  /** The title from the head, provided the page heading repeats it. */
  function ReadHead(ls: seq<string>): Option<(string, seq<string>)> {
    if |ls| >= 9 && ls[..4] == DocumentOpen && ls[5..8] == [Style, "</head>", "<body>"] then
      match Enclosed(ls[4], "<title>", "</title>")
      case Some(t) =>
        if Enclosed(ls[8], "<h1>", "</h1>") == Some(t) then Some((HtmlUnescape(t), ls[9..])) else None
      case None => None
    else None
  }

  /** A list item with the given tag, if the next line is one; the empty
      text otherwise. */
  function ReadOptionalItem(ls: seq<string>, pre: string): (string, seq<string>) {
    if |ls| > 0 && Enclosed(ls[0], pre, ItemEnd).Some? then (HtmlUnescape(Enclosed(ls[0], pre, ItemEnd).value), ls[1..])
    else ("", ls)
  }

  /** The items of the metadata list and the line closing it. */
  function ReadItems(ls: seq<string>): Option<(string, string, string, seq<string>)> {
    var (d, ls1) := ReadOptionalItem(ls, DeviceItem);
    var (s, ls2) := ReadOptionalItem(ls1, SourceItem);
    if |ls2| >= 2 && Enclosed(ls2[0], GeneratedItem, ItemEnd).Some? && ls2[1] == "</ul>" then
      Some((d, s, HtmlUnescape(Enclosed(ls2[0], GeneratedItem, ItemEnd).value), ls2[2..]))
    else None
  }

  /** Device, source file and generation time from the metadata list; all
      three empty when the list is absent. */
  function ReadHtmlMetadata(ls: seq<string>): Option<(string, string, string, seq<string>)> {
    if |ls| > 0 && ls[0] == "<h2>Metadata</h2>" then
      if |ls| >= 2 && ls[1] == "<ul>" then ReadItems(ls[2..]) else None
    else Some(("", "", "", ls))
  }

  /** The summary paragraph; empty when it is absent. */
  function ReadHtmlSummary(ls: seq<string>): Option<(string, seq<string>)> {
    if |ls| > 0 && ls[0] == "<h2>Summary</h2>" then
      if |ls| >= 2 && Enclosed(ls[1], "<p>", "</p>").Some? then
        Some((HtmlUnescape(Enclosed(ls[1], "<p>", "</p>").value), ls[2..]))
      else None
    else Some(("", ls))
  }

  /** The register table that closes the document. */
  function ReadHtmlTable(ls: seq<string>): Option<seq<RegisterEntry>> {
    if |ls| >= 10 && ls[..6] == TableOpen && ls[|ls| - 4..] == TableClose then ParseHtmlRows(ls[6..|ls| - 4])
    else None
  }

  /** Settings and entries of a document given as lines. */
  function ReadHtmlLines(ls: seq<string>): Option<(DocInfo, seq<RegisterEntry>)> {
    match ReadHead(ls)
    case None => None
    case Some((title, ls1)) =>
      match ReadHtmlMetadata(ls1)
      case None => None
      case Some((device, source, generated, ls2)) =>
        match ReadHtmlSummary(ls2)
        case None => None
        case Some((summary, ls3)) =>
          match ReadHtmlTable(ls3)
          case None => None
          case Some(es) => Some((DocInfo(title, device, summary, source, generated), es))
  }

  lemma ReadHeadOf(info: DocInfo, rest: seq<string>)
    ensures ReadHead(HeadLines(info) + rest) == Some((info.title, rest))
  {
    var ls := HeadLines(info) + rest;
    var t := HtmlEscape(info.title);
    assert ls[..4] == DocumentOpen;
    assert ls[5..8] == [Style, "</head>", "<body>"];
    EnclosedOf("<title>", t, "</title>");
    EnclosedOf("<h1>", t, "</h1>");
    HtmlEscapeRoundTrip(info.title);
    assert ls[9..] == rest;
  }

  lemma ReadOptionalItemOf(pre: string, x: string, rest: seq<string>)
    ensures ReadOptionalItem([pre + HtmlEscape(x) + ItemEnd] + rest, pre) == (x, rest)
  {
    EnclosedOf(pre, HtmlEscape(x), ItemEnd);
    HtmlEscapeRoundTrip(x);
    assert ([pre + HtmlEscape(x) + ItemEnd] + rest)[1..] == rest;
  }

  lemma ReadOptionalItemAbsent(pre: string, ls: seq<string>, i: nat)
    requires |ls| > 0 && i < |pre| && i < |ls[0]| && ls[0][i] != pre[i]
    ensures ReadOptionalItem(ls, pre) == ("", ls)
  {
    EnclosedMismatch(ls[0], pre, ItemEnd, i);
  }

  /** An item reads back as its value, and an absent item as the empty
      text, provided the next line carries another tag. */
  lemma ReadItemLinesOf(tag: string, x: string, ls: seq<string>)
    requires |tag| > 12 && |ls| > 0 && |ls[0]| > 12 && ls[0][12] != tag[12]
    ensures ReadOptionalItem(ItemLines(tag, x) + ls, tag) == (x, ls)
    ensures |ItemLines(tag, x) + ls| > 0 && |(ItemLines(tag, x) + ls)[0]| > 12
    ensures (ItemLines(tag, x) + ls)[0][12] == if x != "" then tag[12] else ls[0][12]
  {
    if x != "" {
      ReadOptionalItemOf(tag, x, ls);
    } else {
      assert ItemLines(tag, x) + ls == ls;
      ReadOptionalItemAbsent(tag, ls, 12);
    }
  }

  /** The item reader is the two optional items and then the generation time. */
  lemma ReadItemsParts(ls: seq<string>, device: string, ls1: seq<string>, source: string, ls2: seq<string>,
                       generated: string, rest: seq<string>)
    requires ReadOptionalItem(ls, DeviceItem) == (device, ls1)
    requires ReadOptionalItem(ls1, SourceItem) == (source, ls2)
    requires ls2 == GeneratedLines(generated) + rest
    ensures ReadItems(ls) == Some((device, source, generated, rest))
  {
    EnclosedOf(GeneratedItem, HtmlEscape(generated), ItemEnd);
    HtmlEscapeRoundTrip(generated);
    assert ls2[2..] == rest;
  }

  lemma ItemLabelLetters()
    ensures |DeviceItem| > 12 && |SourceItem| > 12 && |GeneratedItem| > 12
    ensures DeviceItem[12] == 'D' && SourceItem[12] == 'S' && GeneratedItem[12] == 'G'
  {
    assert |ItemOpen| == 12;
  }

  lemma ReadItemsOf(info: DocInfo, rest: seq<string>)
    ensures var gen := GeneratedLines(info.generatedAt) + rest;
            var src := ItemLines(SourceItem, info.sourceFile) + gen;
            ReadItems(ItemLines(DeviceItem, info.deviceName) + src)
            == Some((info.deviceName, info.sourceFile, info.generatedAt, rest))
  {
    var gen := GeneratedLines(info.generatedAt) + rest;
    var src := ItemLines(SourceItem, info.sourceFile) + gen;
    ItemLabelLetters();
    assert gen[0][12] == GeneratedItem[12];
    ReadItemLinesOf(SourceItem, info.sourceFile, gen);
    ReadItemLinesOf(DeviceItem, info.deviceName, src);
    ReadItemsParts(ItemLines(DeviceItem, info.deviceName) + src, info.deviceName, src, info.sourceFile, gen,
                   info.generatedAt, rest);
  }

  /** The metadata list reads back as the three settings it shows, and an
      absent list as three empty settings, which is what hid it. */
  lemma ReadHtmlMetadataOf(info: DocInfo, rest: seq<string>)
    requires |rest| > 0 && rest[0] != "<h2>Metadata</h2>"
    ensures ReadHtmlMetadata(HtmlMetadataLines(info) + rest)
            == Some((info.deviceName, info.sourceFile, info.generatedAt, rest))
  {
    if MetadataShown(info) {
      ReadHtmlMetadataShown(info, rest);
    } else {
      assert HtmlMetadataLines(info) + rest == rest;
    }
  }

  lemma ReadHtmlMetadataShown(info: DocInfo, rest: seq<string>)
    requires MetadataShown(info)
    ensures ReadHtmlMetadata(HtmlMetadataLines(info) + rest)
            == Some((info.deviceName, info.sourceFile, info.generatedAt, rest))
  {
    var dev := ItemLines(DeviceItem, info.deviceName);
    var src := ItemLines(SourceItem, info.sourceFile);
    var gen := GeneratedLines(info.generatedAt);
    Assoc5(MetadataOpen, dev, src, gen, rest);
    DropPrefix(MetadataOpen, dev + (src + (gen + rest)));
    ReadItemsOf(info, rest);
  }

  lemma ReadHtmlSummaryOf(info: DocInfo, rest: seq<string>)
    requires |rest| > 0 && rest[0] != "<h2>Summary</h2>"
    ensures ReadHtmlSummary(HtmlSummaryLines(info) + rest) == Some((info.summary, rest))
  {
    if info.summary != "" {
      EnclosedOf("<p>", HtmlEscape(info.summary), "</p>");
      HtmlEscapeRoundTrip(info.summary);
      assert (HtmlSummaryLines(info) + rest)[2..] == rest;
    } else {
      assert HtmlSummaryLines(info) + rest == rest;
    }
  }

  lemma ReadHtmlTableOf(es: seq<RegisterEntry>)
    ensures ReadHtmlTable(HtmlTableLines(es)) == Some(es)
  {
    var ls := HtmlTableLines(es);
    assert ls[..6] == TableOpen;
    assert ls[|ls| - 4..] == TableClose;
    assert ls[6..|ls| - 4] == HtmlRows(es);
    ParseHtmlRowsOf(es);
  }

  lemma SummaryHead(info: DocInfo, table: seq<string>)
    requires |table| > 0 && table[0] == "<h2>Register Map</h2>"
    ensures |HtmlSummaryLines(info) + table| > 0 && (HtmlSummaryLines(info) + table)[0] != "<h2>Metadata</h2>"
  {
  }

  /** The reader is the four part readers one after another. */
  lemma ReadHtmlLinesParts(ls: seq<string>, title: string, ls1: seq<string>, device: string, source: string,
                           generated: string, ls2: seq<string>, summary: string, ls3: seq<string>,
                           es: seq<RegisterEntry>)
    requires ReadHead(ls) == Some((title, ls1))
    requires ReadHtmlMetadata(ls1) == Some((device, source, generated, ls2))
    requires ReadHtmlSummary(ls2) == Some((summary, ls3))
    requires ReadHtmlTable(ls3) == Some(es)
    ensures ReadHtmlLines(ls) == Some((DocInfo(title, device, summary, source, generated), es))
  {
  }

  /** The document's lines determine its settings and its entries: reading
      them gives back exactly what was written, whatever the texts hold. */
  lemma HtmlLinesRoundTrip(es: seq<RegisterEntry>, info: DocInfo)
    ensures ReadHtmlLines(HtmlLines(es, info)) == Some((info, es))
  {
    var table := HtmlTableLines(es);
    var afterMeta := HtmlSummaryLines(info) + table;
    var afterHead := HtmlMetadataLines(info) + afterMeta;
    HtmlLinesShape(es, info);
    ReadHeadOf(info, afterHead);
    ReadAfterHead(es, info);
    ReadHtmlLinesParts(HtmlLines(es, info), info.title, afterHead, info.deviceName, info.sourceFile,
                       info.generatedAt, afterMeta, info.summary, table, es);
  }

  lemma HtmlLinesShape(es: seq<RegisterEntry>, info: DocInfo)
    ensures HtmlLines(es, info)
            == HeadLines(info) + (HtmlMetadataLines(info) + (HtmlSummaryLines(info) + HtmlTableLines(es)))
  {
    Assoc4(HeadLines(info), HtmlMetadataLines(info), HtmlSummaryLines(info), HtmlTableLines(es));
  }

  lemma ReadAfterHead(es: seq<RegisterEntry>, info: DocInfo)
    ensures var table := HtmlTableLines(es);
            var afterMeta := HtmlSummaryLines(info) + table;
            && ReadHtmlMetadata(HtmlMetadataLines(info) + afterMeta)
               == Some((info.deviceName, info.sourceFile, info.generatedAt, afterMeta))
            && ReadHtmlSummary(afterMeta) == Some((info.summary, table))
            && ReadHtmlTable(table) == Some(es)
  {
    var table := HtmlTableLines(es);
    ReadHtmlTableOf(es);
    TableStartsWithHeading(es);
    ReadHtmlSummaryOf(info, table);
    SummaryHead(info, table);
    ReadHtmlMetadataOf(info, HtmlSummaryLines(info) + table);
  }

  lemma TableStartsWithHeading(es: seq<RegisterEntry>)
    ensures |HtmlTableLines(es)| > 0 && HtmlTableLines(es)[0] == "<h2>Register Map</h2>"
  {
  }

  // -------------------------------------------------------------- the text

  /** Settings and entries of an HTML document. */
  function ReadHtml(doc: string): Option<(DocInfo, seq<RegisterEntry>)> {
    ReadHtmlLines(Split(doc, '\n'))
  }

  /** Only the register table, found at the last `<tbody>` line, so that
      whatever precedes it does not matter. */
  function ReadHtmlTableText(doc: string): Option<seq<RegisterEntry>> {
    var ls := Split(doc, '\n');
    match LastIndexOf(ls, "<tbody>")
    case Some(k) => if k >= 5 then ReadHtmlTable(ls[k - 5..]) else None
    case None => None
  }

  lemma ItemPartsOneLine()
    ensures '\n' !in ItemOpen && '\n' !in ValueOpen && '\n' !in ItemEnd
  {
  }

  lemma ItemLabelsOneLine()
    ensures '\n' !in DeviceItem && '\n' !in SourceItem && '\n' !in GeneratedItem && '\n' !in ItemEnd
  {
    ItemPartsOneLine();
  }

  lemma BodyStyleOneLine()
    ensures '\n' !in BodyStyle
  {
  }

  lemma TableStyleOneLine()
    ensures '\n' !in TableStyle
  {
  }

  lemma CellStyleOneLine()
    ensures '\n' !in CellStyle
  {
  }

  lemma HeaderStyleOneLine()
    ensures '\n' !in HeaderStyle && '\n' !in NumericStyle
  {
  }

  lemma StyleOneLine()
    ensures '\n' !in Style
  {
    BodyStyleOneLine();
    TableStyleOneLine();
    CellStyleOneLine();
    HeaderStyleOneLine();
  }

  lemma HeaderCellsOneLine()
    ensures '\n' !in HeaderCells
  {
  }

  lemma HeaderMoreCellsOneLine()
    ensures '\n' !in HeaderMoreCells
  {
  }

  lemma HeaderRowOneLine()
    ensures '\n' !in HeaderRow
  {
    HeaderCellsOneLine();
    HeaderMoreCellsOneLine();
  }

  /** A line made of a fixed prefix, an escaped text and a fixed suffix. */
  lemma WrappedOneLine(pre: string, x: string, post: string)
    requires '\n' !in pre && '\n' !in x && '\n' !in post
    ensures '\n' !in pre + HtmlEscape(x) + post
  {
    HtmlEscapeKeeps(x, '\n');
  }

  lemma HtmlRowOneLine(e: RegisterEntry)
    requires forall j :: 0 <= j < 7 ==> '\n' !in Fields(e)[j]
    ensures '\n' !in HtmlRow(e)
  {
    var fs := Fields(e);
    assert '\n' !in NumericCell && '\n' !in PlainCell;
    WrappedOneLine(NumericCell, fs[0], "</td>");
    WrappedOneLine(NumericCell, fs[1], "</td>");
    WrappedOneLine(PlainCell, fs[2], "</td>");
    WrappedOneLine(PlainCell, fs[3], "</td>");
    WrappedOneLine(PlainCell, fs[4], "</td>");
    WrappedOneLine(PlainCell, fs[5], "</td>");
    WrappedOneLine(PlainCell, fs[6], "</td>");
  }

  lemma HtmlRowsOneLine(es: seq<RegisterEntry>)
    requires EntriesFreeOf(es, '\n')
    ensures FreeOf(HtmlRows(es), '\n')
  {
    forall i | 0 <= i < |es|
      ensures '\n' !in HtmlRows(es)[i]
    {
      assert forall j :: 0 <= j < 7 ==> '\n' !in Fields(es[i])[j];
      HtmlRowOneLine(es[i]);
    }
  }

  lemma HtmlTableOneLine(es: seq<RegisterEntry>)
    requires EntriesFreeOf(es, '\n')
    ensures FreeOf(HtmlTableLines(es), '\n')
  {
    HtmlRowsOneLine(es);
    HeaderRowOneLine();
    assert FreeOf(TableOpen, '\n');
    assert FreeOf(TableClose, '\n');
    FreeOfAppend(TableOpen, HtmlRows(es), '\n');
    FreeOfAppend(TableOpen + HtmlRows(es), TableClose, '\n');
  }

  lemma DocumentOpenOneLine()
    ensures FreeOf(DocumentOpen, '\n')
  {
  }

  lemma HtmlHeadOneLine(info: DocInfo)
    requires InfoFreeOf(info, '\n')
    ensures FreeOf(HeadLines(info), '\n')
  {
    var t := "<title>" + HtmlEscape(info.title) + "</title>";
    var h := "<h1>" + HtmlEscape(info.title) + "</h1>";
    WrappedOneLine("<title>", info.title, "</title>");
    WrappedOneLine("<h1>", info.title, "</h1>");
    StyleOneLine();
    DocumentOpenOneLine();
    var rest := [t, Style, "</head>", "<body>", h];
    assert '\n' !in "</head>" && '\n' !in "<body>";
    assert FreeOf(rest, '\n') by {
      forall i | 0 <= i < 5
        ensures '\n' !in rest[i]
      {
      }
    }
    FreeOfAppend(DocumentOpen, rest, '\n');
  }

  lemma ItemLinesOneLine(tag: string, x: string)
    requires '\n' !in tag && '\n' !in x && '\n' !in ItemEnd
    ensures FreeOf(ItemLines(tag, x), '\n')
  {
    WrappedOneLine(tag, x, ItemEnd);
  }

  lemma HtmlMetadataOneLine(info: DocInfo)
    requires InfoFreeOf(info, '\n')
    ensures FreeOf(HtmlMetadataLines(info), '\n')
  {
    if MetadataShown(info) {
      var dev := ItemLines(DeviceItem, info.deviceName);
      var src := ItemLines(SourceItem, info.sourceFile);
      var gen := GeneratedLines(info.generatedAt);
      ItemLabelsOneLine();
      ItemLinesOneLine(DeviceItem, info.deviceName);
      ItemLinesOneLine(SourceItem, info.sourceFile);
      WrappedOneLine(GeneratedItem, info.generatedAt, ItemEnd);
      assert FreeOf(MetadataOpen, '\n');
      assert FreeOf(gen, '\n');
      FreeOfAppend(MetadataOpen, dev, '\n');
      FreeOfAppend(MetadataOpen + dev, src, '\n');
      FreeOfAppend(MetadataOpen + dev + src, gen, '\n');
    }
  }

  lemma HtmlSummaryOneLine(info: DocInfo)
    requires InfoFreeOf(info, '\n')
    ensures FreeOf(HtmlSummaryLines(info), '\n')
  {
    WrappedOneLine("<p>", info.summary, "</p>");
  }

  lemma HtmlLinesOneLine(es: seq<RegisterEntry>, info: DocInfo)
    requires InfoFreeOf(info, '\n') && EntriesFreeOf(es, '\n')
    ensures FreeOf(HtmlLines(es, info), '\n')
  {
    HtmlHeadOneLine(info);
    HtmlMetadataOneLine(info);
    HtmlSummaryOneLine(info);
    HtmlTableOneLine(es);
    FreeOfAppend(HeadLines(info), HtmlMetadataLines(info), '\n');
    FreeOfAppend(HeadLines(info) + HtmlMetadataLines(info), HtmlSummaryLines(info), '\n');
    FreeOfAppend(HeadLines(info) + HtmlMetadataLines(info) + HtmlSummaryLines(info), HtmlTableLines(es), '\n');
  }

  /** When no setting and no field holds a line break, the document gives
      back the resolved settings and the entries it was written from. */
  lemma HtmlRoundTrip(es: seq<RegisterEntry>, metadata: Option<map<string, string>>,
                      sourceName: Option<string>, now: string)
    requires InfoFreeOf(ResolveMetadata(metadata, sourceName, now), '\n')
    requires EntriesFreeOf(es, '\n')
    ensures ReadHtml(GenerateHtml(es, metadata, sourceName, now))
            == Some((ResolveMetadata(metadata, sourceName, now), es))
  {
    var info := ResolveMetadata(metadata, sourceName, now);
    HtmlLinesOneLine(es, info);
    SplitJoin(HtmlLines(es, info), '\n');
    HtmlLinesRoundTrip(es, info);
  }

  lemma HtmlRowNotBody(e: RegisterEntry)
    ensures HtmlRow(e) != "<tbody>"
  {
    assert HtmlRow(e)[..4] == "<tr>";
  }

  /** The lines after `<tbody>` never repeat it. */
  lemma BodyOnce(es: seq<RegisterEntry>)
    ensures "<tbody>" !in HtmlRows(es) + TableClose
  {
    forall i | 0 <= i < |es|
      ensures HtmlRows(es)[i] != "<tbody>"
    {
      HtmlRowNotBody(es[i]);
    }
  }

  /** When the rows do not repeat `<tbody>`, the last one of the lines is
      the table's own, whatever lines come first. */
  lemma BodyAt(pre: seq<string>, rows: seq<string>)
    requires "<tbody>" !in rows + TableClose
    ensures LastIndexOf(pre + (TableOpen + rows + TableClose), "<tbody>") == Some(|pre| + 5)
    ensures (pre + (TableOpen + rows + TableClose))[|pre|..] == TableOpen + rows + TableClose
  {
    assert TableOpen == TableOpen[..5] + ["<tbody>"];
    RegroupAround(TableOpen, TableOpen[..5], "<tbody>", rows, TableClose);
    LastIndexAfter(pre, TableOpen[..5], "<tbody>", rows + TableClose, TableOpen + rows + TableClose);
  }

  /** Whatever lines come first, the table is found at its `<tbody>` line. */
  lemma ReadTableAfter(pre: seq<string>, es: seq<RegisterEntry>)
    ensures var ls := pre + HtmlTableLines(es);
            LastIndexOf(ls, "<tbody>") == Some(|pre| + 5) && ReadHtmlTable(ls[|pre|..]) == Some(es)
  {
    BodyOnce(es);
    BodyAt(pre, HtmlRows(es));
    ReadHtmlTableOf(es);
  }

  /** The table reads back from the text as long as no field holds a line
      break; the settings may hold anything. */
  lemma HtmlTableRoundTrip(es: seq<RegisterEntry>, metadata: Option<map<string, string>>,
                           sourceName: Option<string>, now: string)
    requires EntriesFreeOf(es, '\n')
    ensures ReadHtmlTableText(GenerateHtml(es, metadata, sourceName, now)) == Some(es)
  {
    var info := ResolveMetadata(metadata, sourceName, now);
    HtmlTableOneLine(es);
    TableTextAfter(HeadLines(info) + HtmlMetadataLines(info) + HtmlSummaryLines(info), es);
  }

  /** Whatever lines come first, the table reads back from the text. */
  lemma TableTextAfter(head: seq<string>, es: seq<RegisterEntry>)
    requires |head| > 0 && FreeOf(HtmlTableLines(es), '\n')
    ensures ReadHtmlTableText(Join(head + HtmlTableLines(es), "\n")) == Some(es)
  {
    SplitJoinTail(head, HtmlTableLines(es), '\n');
    var pre := Split(Join(head, "\n"), '\n');
    ReadTableAfter(pre, es);
    assert |pre| + 5 - 5 == |pre|;
  }

  /** Unlike the Markdown document, the HTML text ends with its closing tag
      and no line break. */
  lemma HtmlEndsWithClosingTag(es: seq<RegisterEntry>, metadata: Option<map<string, string>>,
                               sourceName: Option<string>, now: string)
    ensures var doc := GenerateHtml(es, metadata, sourceName, now);
            |doc| >= 7 && doc[|doc| - 7..] == "</html>"
  {
    var ls := HtmlLines(es, ResolveMetadata(metadata, sourceName, now));
    JoinEndsWithLast(ls, "\n");
  }
}

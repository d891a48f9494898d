/**
 * The whole Markdown document of `generate_markdown`
 * (bms_register_viewer/export.py): a title, an optional metadata block, an
 * optional summary, and the register table, as lines joined by line breaks.
 * The readers below take a document apart again; their round-trip lemmas
 * say that the layout keeps every setting and every entry recoverable.
 */
module MarkdownDocument {
  import opened Wrappers
  import opened Text
  import opened Registers
  import opened Metadata
  import opened Lines
  import opened Markdown
  import opened Sequences

  const MapHeading := "## Register Map"
  // The column line and the alignment line, written in pieces short enough
  // for the verifier to see that they hold no line break.
  const HeaderStart := "| Address | Function " + "| Name / Description "
  const HeaderEnd := "| Unit | Scaling " + "| Data Type | Notes |"
  // | Address | Function | Name / Description | Unit | Scaling | Data Type | Notes |
  const TableHeader := HeaderStart + HeaderEnd
  const RuleStart := "|--------:|:--------:" + "|--------------------"
  const RuleEnd := "|:----:|:-------:" + "|:---------:|:------|"
  // |--------:|:--------:|--------------------|:----:|:-------:|:---------:|:------|
  const TableRule := RuleStart + RuleEnd

  const DevicePrefix := "- Device: `"
  const SourcePrefix := "- Source file: `"
  const GeneratedPrefix := "- Generated: `"

  /** The title heading and the blank line after it. */
  function TitleLines(info: DocInfo): seq<string> {
    ["# " + info.title, ""]
  }

  /** The metadata block: written when some of device, source file and time is
      set; device and source file each only when set, the time always. */
  function MetadataLines(info: DocInfo): seq<string> {
    if MetadataShown(info) then
      ["**Metadata**", ""]
      + (if info.deviceName != "" then [DevicePrefix + info.deviceName + "`"] else [])
      + (if info.sourceFile != "" then [SourcePrefix + info.sourceFile + "`"] else [])
      + [GeneratedPrefix + info.generatedAt + "`", ""]
    else []
  }

  /** The summary block, written when the summary is not empty. */
  function SummaryLines(info: DocInfo): seq<string> {
    if info.summary != "" then ["**Summary**", "", info.summary, ""] else []
  }

  /** One table line per entry, in the map's order. */
  function TableRows(es: seq<RegisterEntry>): (rows: seq<string>)
    ensures |rows| == |es|
    ensures forall i :: 0 <= i < |es| ==> rows[i] == MarkdownRow(es[i])
  {
    seq(|es|, i requires 0 <= i < |es| => MarkdownRow(es[i]))
  }

  /** The heading and column lines that open the table. */
  const TableHead := [MapHeading, "", TableHeader, TableRule]

  /** The table from its heading to the empty last line. */
  function TableLines(es: seq<RegisterEntry>): seq<string> {
    TableHead + TableRows(es) + [""]
  }

  /** The lines of the document, the last one empty so that the text ends
      with a line break. */
  function MarkdownLines(es: seq<RegisterEntry>, info: DocInfo): seq<string> {
    TitleLines(info) + MetadataLines(info) + SummaryLines(info) + TableLines(es)
  }

  /** `generate_markdown`: `now` is the clock reading used when the metadata
      has no `generated_at`, `sourceName` the file name of the map's source. */
  function GenerateMarkdown(es: seq<RegisterEntry>, metadata: Option<map<string, string>>,
                            sourceName: Option<string>, now: string): string
  {
    Join(MarkdownLines(es, ResolveMetadata(metadata, sourceName, now)), "\n")
  }

  // ------------------------------------------------------------- reading back

  /** The entries of a run of table lines, if every line reads as a row. */
  function ParseMdRows(ls: seq<string>): (r: Option<seq<RegisterEntry>>)
    ensures r.Some? ==> |r.value| == |ls|
    decreases |ls|
  {
    if |ls| == 0 then Some([])
    else match (ParseMdRow(ls[0]), ParseMdRows(ls[1..]))
      case (Some(e), Some(rest)) => Some([e] + rest)
      case _ => None
  }

  lemma TableRowsTail(es: seq<RegisterEntry>)
    requires |es| > 0
    ensures TableRows(es)[1..] == TableRows(es[1..])
  {
  }

  lemma ParseMdRowsCons(ls: seq<string>, es: seq<RegisterEntry>)
    requires |ls| > 0 && |es| > 0
    requires ParseMdRow(ls[0]) == Some(es[0])
    requires ParseMdRows(ls[1..]) == Some(es[1..])
    ensures ParseMdRows(ls) == Some(es)
  {
    HeadTail(es);
  }

  lemma {:induction false} ParseTableRows(es: seq<RegisterEntry>)
    ensures ParseMdRows(TableRows(es)) == Some(es)
    decreases |es|
  {
    if |es| > 0 {
      MarkdownRowRoundTrip(es[0]);
      TableRowsTail(es);
      ParseTableRows(es[1..]);
      ParseMdRowsCons(TableRows(es), es);
    }
  }

  /** The title line and the blank line after it. */
  function ReadTitle(ls: seq<string>): Option<(string, seq<string>)> {
    if |ls| >= 2 && ls[1] == "" then
      match Enclosed(ls[0], "# ", "")
      case Some(t) => Some((t, ls[2..]))
      case None => None
    else None
  }

  /** A line with the given prefix and a closing backtick, if the next line
      is one; the empty text otherwise. */
  function ReadOptionalLine(ls: seq<string>, pre: string): (string, seq<string>) {
    if |ls| > 0 && Enclosed(ls[0], pre, "`").Some? then (Enclosed(ls[0], pre, "`").value, ls[1..])
    else ("", ls)
  }

  /** The lines of the metadata block after its heading. */
  function ReadItems(ls: seq<string>): Option<(string, string, string, seq<string>)> {
    var (d, ls1) := ReadOptionalLine(ls, DevicePrefix);
    var (s, ls2) := ReadOptionalLine(ls1, SourcePrefix);
    if |ls2| >= 2 && Enclosed(ls2[0], GeneratedPrefix, "`").Some? && ls2[1] == "" then
      Some((d, s, Enclosed(ls2[0], GeneratedPrefix, "`").value, ls2[2..]))
    else None
  }

  /** Device, source file and generation time from the metadata block; all
      three empty when the block is absent. */
  function ReadMetadataBlock(ls: seq<string>): Option<(string, string, string, seq<string>)> {
    if |ls| > 0 && ls[0] == "**Metadata**" then
      if |ls| >= 2 && ls[1] == "" then ReadItems(ls[2..]) else None
    else Some(("", "", "", ls))
  }

  /** The summary paragraph; empty when the block is absent. */
  function ReadSummary(ls: seq<string>): Option<(string, seq<string>)> {
    if |ls| > 0 && ls[0] == "**Summary**" then
      if |ls| >= 4 && ls[1] == "" && ls[3] == "" then Some((ls[2], ls[4..])) else None
    else Some(("", ls))
  }

  /** The register table that closes the document. */
  function ReadTable(ls: seq<string>): Option<seq<RegisterEntry>> {
    if |ls| >= 5 && ls[..4] == TableHead && ls[|ls| - 1] == "" then ParseMdRows(ls[4..|ls| - 1])
    else None
  }

  /** Settings and entries of a document given as lines. */
  function ReadMarkdownLines(ls: seq<string>): Option<(DocInfo, seq<RegisterEntry>)> {
    match ReadTitle(ls)
    case None => None
    case Some((title, ls1)) =>
      match ReadMetadataBlock(ls1)
      case None => None
      case Some((device, source, generated, ls2)) =>
        match ReadSummary(ls2)
        case None => None
        case Some((summary, ls3)) =>
          match ReadTable(ls3)
          case None => None
          case Some(es) => Some((DocInfo(title, device, summary, source, generated), es))
  }

  lemma ReadTitleOf(info: DocInfo, rest: seq<string>)
    ensures ReadTitle(TitleLines(info) + rest) == Some((info.title, rest))
  {
    EnclosedOf("# ", info.title, "");
    assert "# " + info.title + "" == "# " + info.title;
    assert (TitleLines(info) + rest)[2..] == rest;
  }

  lemma ReadOptionalLineOf(pre: string, x: string, rest: seq<string>)
    ensures ReadOptionalLine([pre + x + "`"] + rest, pre) == (x, rest)
  {
    EnclosedOf(pre, x, "`");
    assert ([pre + x + "`"] + rest)[1..] == rest;
  }

  lemma ReadOptionalLineAbsent(pre: string, ls: seq<string>, i: nat)
    requires |ls| > 0 && i < |pre| && i < |ls[0]| && ls[0][i] != pre[i]
    ensures ReadOptionalLine(ls, pre) == ("", ls)
  {
    EnclosedMismatch(ls[0], pre, "`", i);
  }

  /** The device line is left out exactly when the device is empty: the next
      line then starts with another label. */
  lemma ReadDeviceLine(info: DocInfo, rest: seq<string>)
    requires MetadataShown(info)
    ensures var ls := (if info.sourceFile != "" then [SourcePrefix + info.sourceFile + "`"] else [])
                      + ([GeneratedPrefix + info.generatedAt + "`", ""] + rest);
            ReadOptionalLine((if info.deviceName != "" then [DevicePrefix + info.deviceName + "`"] else []) + ls,
                             DevicePrefix) == (info.deviceName, ls)
  {
    var ls := (if info.sourceFile != "" then [SourcePrefix + info.sourceFile + "`"] else [])
              + ([GeneratedPrefix + info.generatedAt + "`", ""] + rest);
    if info.deviceName != "" {
      ReadOptionalLineOf(DevicePrefix, info.deviceName, ls);
    } else {
      assert ([] + ls) == ls;
      assert ls[0][2] != DevicePrefix[2];
      ReadOptionalLineAbsent(DevicePrefix, ls, 2);
    }
  }

  lemma ReadSourceLine(info: DocInfo, rest: seq<string>)
    ensures var ls := [GeneratedPrefix + info.generatedAt + "`", ""] + rest;
            ReadOptionalLine((if info.sourceFile != "" then [SourcePrefix + info.sourceFile + "`"] else []) + ls,
                             SourcePrefix) == (info.sourceFile, ls)
  {
    var ls := [GeneratedPrefix + info.generatedAt + "`", ""] + rest;
    if info.sourceFile != "" {
      ReadOptionalLineOf(SourcePrefix, info.sourceFile, ls);
    } else {
      assert ([] + ls) == ls;
      assert ls[0][2] != SourcePrefix[2];
      ReadOptionalLineAbsent(SourcePrefix, ls, 2);
    }
  }

  lemma ReadItemsOf(info: DocInfo, rest: seq<string>)
    requires MetadataShown(info)
    ensures var dev := if info.deviceName != "" then [DevicePrefix + info.deviceName + "`"] else [];
            var src := if info.sourceFile != "" then [SourcePrefix + info.sourceFile + "`"] else [];
            var gen := [GeneratedPrefix + info.generatedAt + "`", ""];
            ReadItems(dev + (src + (gen + rest))) == Some((info.deviceName, info.sourceFile, info.generatedAt, rest))
  {
    var src := if info.sourceFile != "" then [SourcePrefix + info.sourceFile + "`"] else [];
    var gen := [GeneratedPrefix + info.generatedAt + "`", ""];
    var ls2 := gen + rest;
    ReadDeviceLine(info, rest);
    ReadSourceLine(info, rest);
    EnclosedOf(GeneratedPrefix, info.generatedAt, "`");
    assert ls2[2..] == rest;
  }

  /** The metadata block reads back as the three settings it shows, and an
      absent block as three empty settings, which is what hid it. */
  lemma ReadMetadataBlockOf(info: DocInfo, rest: seq<string>)
    requires |rest| > 0 && rest[0] != "**Metadata**"
    ensures ReadMetadataBlock(MetadataLines(info) + rest)
            == Some((info.deviceName, info.sourceFile, info.generatedAt, rest))
  {
    if MetadataShown(info) {
      ReadMetadataBlockShown(info, rest);
    } else {
      assert MetadataLines(info) + rest == rest;
    }
  }

  lemma ReadMetadataBlockShown(info: DocInfo, rest: seq<string>)
    requires MetadataShown(info)
    ensures ReadMetadataBlock(MetadataLines(info) + rest)
            == Some((info.deviceName, info.sourceFile, info.generatedAt, rest))
  {
    var dev := if info.deviceName != "" then [DevicePrefix + info.deviceName + "`"] else [];
    var src := if info.sourceFile != "" then [SourcePrefix + info.sourceFile + "`"] else [];
    var gen := [GeneratedPrefix + info.generatedAt + "`", ""];
    Assoc5(["**Metadata**", ""], dev, src, gen, rest);
    DropPrefix(["**Metadata**", ""], dev + (src + (gen + rest)));
    ReadItemsOf(info, rest);
  }

  lemma ReadSummaryOf(info: DocInfo, rest: seq<string>)
    requires |rest| > 0 && rest[0] != "**Summary**"
    ensures ReadSummary(SummaryLines(info) + rest) == Some((info.summary, rest))
  {
    if info.summary != "" {
      assert (SummaryLines(info) + rest)[4..] == rest;
    } else {
      assert SummaryLines(info) + rest == rest;
    }
  }

  lemma ReadTableOf(es: seq<RegisterEntry>)
    ensures ReadTable(TableLines(es)) == Some(es)
  {
    var ls := TableLines(es);
    assert ls[..4] == TableHead;
    assert ls[4..|ls| - 1] == TableRows(es);
    ParseTableRows(es);
  }

  /** The reader is the four part readers one after another. */
  lemma ReadMarkdownLinesParts(ls: seq<string>, title: string, ls1: seq<string>, device: string, source: string,
                               generated: string, ls2: seq<string>, summary: string, ls3: seq<string>,
                               es: seq<RegisterEntry>)
    requires ReadTitle(ls) == Some((title, ls1))
    requires ReadMetadataBlock(ls1) == Some((device, source, generated, ls2))
    requires ReadSummary(ls2) == Some((summary, ls3))
    requires ReadTable(ls3) == Some(es)
    ensures ReadMarkdownLines(ls) == Some((DocInfo(title, device, summary, source, generated), es))
  {
  }

  /** The document's lines determine its settings and its entries: reading
      them gives back exactly what was written. */
  lemma MarkdownLinesRoundTrip(es: seq<RegisterEntry>, info: DocInfo)
    ensures ReadMarkdownLines(MarkdownLines(es, info)) == Some((info, es))
  {
    var table := TableLines(es);
    var afterMeta := SummaryLines(info) + table;
    var afterTitle := MetadataLines(info) + afterMeta;
    MarkdownLinesShape(es, info);
    ReadTitleOf(info, afterTitle);
    ReadAfterTitle(es, info);
    ReadMarkdownLinesParts(MarkdownLines(es, info), info.title, afterTitle, info.deviceName, info.sourceFile,
                           info.generatedAt, afterMeta, info.summary, table, es);
  }

  lemma MarkdownLinesShape(es: seq<RegisterEntry>, info: DocInfo)
    ensures MarkdownLines(es, info)
            == TitleLines(info) + (MetadataLines(info) + (SummaryLines(info) + TableLines(es)))
  {
    Assoc4(TitleLines(info), MetadataLines(info), SummaryLines(info), TableLines(es));
  }

  lemma ReadAfterTitle(es: seq<RegisterEntry>, info: DocInfo)
    ensures var table := TableLines(es);
            var afterMeta := SummaryLines(info) + table;
            && ReadMetadataBlock(MetadataLines(info) + afterMeta)
               == Some((info.deviceName, info.sourceFile, info.generatedAt, afterMeta))
            && ReadSummary(afterMeta) == Some((info.summary, table))
            && ReadTable(table) == Some(es)
  {
    var table := TableLines(es);
    ReadTableOf(es);
    assert table[0] == MapHeading;
    ReadSummaryOf(info, table);
    SummaryHead(info, table);
    ReadMetadataBlockOf(info, SummaryLines(info) + table);
  }

  lemma SummaryHead(info: DocInfo, table: seq<string>)
    requires |table| > 0 && table[0] == MapHeading
    ensures |SummaryLines(info) + table| > 0 && (SummaryLines(info) + table)[0] != "**Metadata**"
  {
  }

  // -------------------------------------------------------------- the text

  /** Settings and entries of a Markdown document. */
  function ReadMarkdown(doc: string): Option<(DocInfo, seq<RegisterEntry>)> {
    ReadMarkdownLines(Split(doc, '\n'))
  }

  /** Only the register table of a Markdown document, found under the last
      register-map heading, so that whatever precedes it does not matter. */
  function ReadMarkdownTable(doc: string): Option<seq<RegisterEntry>> {
    var ls := Split(doc, '\n');
    match LastIndexOf(ls, MapHeading)
    case Some(k) => ReadTable(ls[k..])
    case None => None
  }

  lemma TableRowsOneLine(es: seq<RegisterEntry>)
    requires EntriesFreeOf(es, '\n')
    ensures FreeOf(TableRows(es), '\n')
  {
    forall i | 0 <= i < |es|
      ensures '\n' !in TableRows(es)[i]
    {
      assert forall j :: 0 <= j < 7 ==> '\n' !in Fields(es[i])[j];
      MarkdownRowOneLine(es[i], '\n');
    }
  }

  lemma HeaderStartOneLine()
    ensures '\n' !in HeaderStart
  {
  }

  lemma HeaderEndOneLine()
    ensures '\n' !in HeaderEnd
  {
  }

  lemma RuleStartOneLine()
    ensures '\n' !in RuleStart
  {
  }

  lemma RuleEndOneLine()
    ensures '\n' !in RuleEnd
  {
  }

  lemma TableHeadOneLine()
    ensures FreeOf(TableHead, '\n')
  {
    HeaderStartOneLine();
    HeaderEndOneLine();
    RuleStartOneLine();
    RuleEndOneLine();
    assert '\n' !in TableHeader && '\n' !in TableRule;
  }

  lemma TableOneLine(es: seq<RegisterEntry>)
    requires EntriesFreeOf(es, '\n')
    ensures FreeOf(TableLines(es), '\n')
  {
    TableRowsOneLine(es);
    TableHeadOneLine();
    FreeOfAppend(TableHead, TableRows(es), '\n');
    FreeOfAppend(TableHead + TableRows(es), [""], '\n');
  }

  lemma MarkdownLinesOneLine(es: seq<RegisterEntry>, info: DocInfo)
    requires InfoFreeOf(info, '\n') && EntriesFreeOf(es, '\n')
    ensures FreeOf(MarkdownLines(es, info), '\n')
  {
    var head := TitleLines(info);
    assert FreeOf(head, '\n');
    assert FreeOf(MetadataLines(info), '\n');
    assert FreeOf(SummaryLines(info), '\n');
    TableOneLine(es);
    FreeOfAppend(head, MetadataLines(info), '\n');
    FreeOfAppend(head + MetadataLines(info), SummaryLines(info), '\n');
    FreeOfAppend(head + MetadataLines(info) + SummaryLines(info), TableLines(es), '\n');
    assert MarkdownLines(es, info)
           == head + MetadataLines(info) + SummaryLines(info) + TableLines(es);
  }

  /** When no setting and no field holds a line break, the document gives
      back the resolved settings and the entries it was written from. */
  lemma MarkdownRoundTrip(es: seq<RegisterEntry>, metadata: Option<map<string, string>>,
                          sourceName: Option<string>, now: string)
    requires InfoFreeOf(ResolveMetadata(metadata, sourceName, now), '\n')
    requires EntriesFreeOf(es, '\n')
    ensures ReadMarkdown(GenerateMarkdown(es, metadata, sourceName, now))
            == Some((ResolveMetadata(metadata, sourceName, now), es))
  {
    var info := ResolveMetadata(metadata, sourceName, now);
    MarkdownLinesOneLine(es, info);
    SplitJoin(MarkdownLines(es, info), '\n');
    MarkdownLinesRoundTrip(es, info);
  }

  lemma RowsNotHeading(es: seq<RegisterEntry>)
    ensures MapHeading !in TableRows(es)
  {
    forall i | 0 <= i < |es|
      ensures TableRows(es)[i] != MapHeading
    {
      MarkdownRowStartsWithPipe(es[i]);
    }
  }

  /** The lines after the table's heading never repeat it. */
  lemma HeadingOnce(es: seq<RegisterEntry>)
    ensures MapHeading !in TableHead[1..] + TableRows(es) + [""]
  {
    RowsNotHeading(es);
    assert TableHeader[0] != MapHeading[0] && TableRule[0] != MapHeading[0];
    assert MapHeading !in TableHead[1..];
    NotInConcat(MapHeading, TableHead[1..], TableRows(es), [""]);
  }

  /** When the rows do not repeat the heading, the last heading of the lines
      is the table's own, whatever lines come first. */
  lemma HeadingAt(pre: seq<string>, rows: seq<string>)
    requires MapHeading !in TableHead[1..] + rows + [""]
    ensures LastIndexOf(pre + (TableHead + rows + [""]), MapHeading) == Some(|pre|)
    ensures (pre + (TableHead + rows + [""]))[|pre|..] == TableHead + rows + [""]
  {
    assert TableHead == [MapHeading] + TableHead[1..];
    RegroupAfter(TableHead, MapHeading, TableHead[1..], rows, [""]);
    LastIndexAfter(pre, [], MapHeading, TableHead[1..] + rows + [""], TableHead + rows + [""]);
  }

  /** Whatever lines come first, the table is found under its own heading. */
  lemma ReadTableAfter(pre: seq<string>, es: seq<RegisterEntry>)
    ensures var ls := pre + TableLines(es);
            LastIndexOf(ls, MapHeading) == Some(|pre|) && ReadTable(ls[|pre|..]) == Some(es)
  {
    HeadingOnce(es);
    HeadingAt(pre, TableRows(es));
    ReadTableOf(es);
  }

  /** The table reads back from the text as long as no field holds a line
      break; title, metadata and summary may hold anything, even a copy of
      the register-map heading. */
  lemma MarkdownTableRoundTrip(es: seq<RegisterEntry>, metadata: Option<map<string, string>>,
                               sourceName: Option<string>, now: string)
    requires EntriesFreeOf(es, '\n')
    ensures ReadMarkdownTable(GenerateMarkdown(es, metadata, sourceName, now)) == Some(es)
  {
    var info := ResolveMetadata(metadata, sourceName, now);
    TableOneLine(es);
    TableTextAfter(TitleLines(info) + MetadataLines(info) + SummaryLines(info), es);
  }

  /** Whatever lines come first, the table reads back from the text. */
  lemma TableTextAfter(head: seq<string>, es: seq<RegisterEntry>)
    requires |head| > 0 && FreeOf(TableLines(es), '\n')
    ensures ReadMarkdownTable(Join(head + TableLines(es), "\n")) == Some(es)
  {
    SplitJoinTail(head, TableLines(es), '\n');
    ReadTableAfter(Split(Join(head, "\n"), '\n'), es);
  }

  /** The document ends with a line break. */
  lemma MarkdownEndsWithNewline(es: seq<RegisterEntry>, metadata: Option<map<string, string>>,
                                sourceName: Option<string>, now: string)
    ensures var doc := GenerateMarkdown(es, metadata, sourceName, now);
            |doc| > 0 && doc[|doc| - 1] == '\n'
  {
    var info := ResolveMetadata(metadata, sourceName, now);
    JoinEndsWithSeparator(MarkdownLines(es, info), "\n");
  }
}

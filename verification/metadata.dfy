/**
 * The document settings shared by `generate_markdown` and `generate_html`
 * (bms_register_viewer/export.py): each comes from the caller's metadata
 * when its key is present, and otherwise from a default. The file name of
 * the map's source path and the current time are parameters here.
 */
module Metadata {
  import opened Wrappers

  /** The resolved settings of one export. */
  datatype DocInfo = DocInfo(
    title: string,
    deviceName: string,
    summary: string,
    sourceFile: string,
    generatedAt: string)

  const DefaultTitle := "Register Map"

  /** `d.get(key, default)`: a present key wins even when its value is empty. */
  function Get(d: map<string, string>, key: string, default: string): (v: string)
    ensures key in d ==> v == d[key]
    ensures key !in d ==> v == default
  {
    if key in d then d[key] else default
  }

  /** `metadata = dict(metadata or {})` followed by the five lookups.
      `sourceName` is `register_map.source_path.name`, `None` when the map has
      no source path; `now` is what `_now_iso()` returns. Each key is looked
      up on its own: a supplied key wins, even with an empty value, and an
      absent one falls back to its own default whatever the other keys hold. */
  function ResolveMetadata(metadata: Option<map<string, string>>, sourceName: Option<string>, now: string): (info: DocInfo)
    ensures metadata.None? ==>
      info == DocInfo(DefaultTitle, "", "", sourceName.GetOr(""), now)
    ensures var d := metadata.GetOr(map[]);
      && ("title" in d ==> info.title == d["title"])
      && ("title" !in d ==> info.title == DefaultTitle)
    ensures var d := metadata.GetOr(map[]);
      && ("device_name" in d ==> info.deviceName == d["device_name"])
      && ("device_name" !in d ==> info.deviceName == "")
    ensures var d := metadata.GetOr(map[]);
      && ("summary" in d ==> info.summary == d["summary"])
      && ("summary" !in d ==> info.summary == "")
    ensures var d := metadata.GetOr(map[]);
      && ("source_file" in d ==> info.sourceFile == d["source_file"])
      && ("source_file" !in d ==> info.sourceFile == sourceName.GetOr(""))
    ensures var d := metadata.GetOr(map[]);
      && ("generated_at" in d ==> info.generatedAt == d["generated_at"])
      && ("generated_at" !in d ==> info.generatedAt == now)
  {
    var d := metadata.GetOr(map[]);
    DocInfo(
      Get(d, "title", DefaultTitle),
      Get(d, "device_name", ""),
      Get(d, "summary", ""),
      Get(d, "source_file", sourceName.GetOr("")),
      Get(d, "generated_at", now))
  }

  /** The settings written back as metadata, under the keys the exporters read. */
  function AsMetadata(info: DocInfo): map<string, string> {
    map["title" := info.title, "device_name" := info.deviceName, "summary" := info.summary,
        "source_file" := info.sourceFile, "generated_at" := info.generatedAt]
  }

  /** Supplying every key pins the settings: neither the source path nor the
      clock has any say, so a resolved result passed back as metadata
      resolves to itself. */
  lemma ResolveAsMetadata(info: DocInfo, sourceName: Option<string>, now: string)
    ensures ResolveMetadata(Some(AsMetadata(info)), sourceName, now) == info
  {
  }

  /** No metadata and an empty mapping resolve alike, as `metadata or {}` makes them. */
  lemma ResolveNoneIsEmpty(sourceName: Option<string>, now: string)
    ensures ResolveMetadata(None, sourceName, now) == ResolveMetadata(Some(map[]), sourceName, now)
  {
  }

  /** Whether the metadata block is written: some of device, source file and
      generation time is non-empty. */
  predicate MetadataShown(info: DocInfo) {
    info.deviceName != "" || info.sourceFile != "" || info.generatedAt != ""
  }

  /** Without a `generated_at` key the clock's reading is used, so the block
      is always written when the clock gives a non-empty time. */
  lemma ClockShowsMetadata(metadata: Option<map<string, string>>, sourceName: Option<string>, now: string)
    requires metadata.None? || "generated_at" !in metadata.value
    requires now != ""
    ensures ResolveMetadata(metadata, sourceName, now).generatedAt == now
    ensures MetadataShown(ResolveMetadata(metadata, sourceName, now))
  {
  }

  /** No setting holds character `c`. */
  predicate InfoFreeOf(info: DocInfo, c: char) {
    c !in info.title && c !in info.deviceName && c !in info.summary
    && c !in info.sourceFile && c !in info.generatedAt
  }
}

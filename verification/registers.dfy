/**
 * One row of a register map and the loader's header resolution
 * (`RegisterEntry` and `RegisterMap.from_csv` in bms_register_viewer/model.py).
 * Reading the file and splitting it into CSV cells is left to the caller: the
 * loader here starts from the header list and the per-row dictionaries.
 */
module Registers {
  import opened Wrappers
  import opened Text
  import opened PyInt

  /** A register row: seven strings, empty when the source had nothing. */
  datatype RegisterEntry = RegisterEntry(
    address: string,
    functionCode: string,
    name: string,
    unit: string,
    scaling: string,
    dataType: string,
    notes: string)

  /** The seven fields in the fixed column order address, function, name, unit,
      scaling, data type, notes. */
  function Fields(e: RegisterEntry): (r: seq<string>)
    ensures |r| == 7
  {
    [e.address, e.functionCode, e.name, e.unit, e.scaling, e.dataType, e.notes]
  }

  /** No field of any entry holds character `c`. */
  predicate EntriesFreeOf(es: seq<RegisterEntry>, c: char) {
    forall i, j :: 0 <= i < |es| && 0 <= j < 7 ==> c !in Fields(es[i])[j]
  }

  /** The entry whose fields, in column order, are `cs`. */
  function EntryOfFields(cs: seq<string>): (e: RegisterEntry)
    requires |cs| == 7
    ensures Fields(e) == cs
  {
    RegisterEntry(cs[0], cs[1], cs[2], cs[3], cs[4], cs[5], cs[6])
  }

  /** `address_int`: the address read as an integer, `None` when `int()` would
      raise. */
  function AddressInt(e: RegisterEntry): Option<int> {
    ParseInt(e.address)
  }

  /** An address is an integer exactly when, without the white space `int()`
      skips, it is an optional sign and one to `MaxStrDigits` decimal digits;
      a blank address is not one, and an address that reads `str(n)` between
      such white space is the integer `n` when `n` fits the digit limit. */
  lemma AddressIntSpec(e: RegisterEntry, w: string, n: int, w': string)
    requires forall i :: 0 <= i < |w| ==> IsIntSpace(w[i])
    requires forall i :: 0 <= i < |w'| ==> IsIntSpace(w'[i])
    ensures AddressInt(e).Some? <==> IntLiteral(IntTrim(e.address)) && DigitCount(IntTrim(e.address)) <= MaxStrDigits
    ensures Strip(e.address) == "" ==> AddressInt(e) == None
    ensures e.address == w + IntToString(n) + w' ==>
      AddressInt(e) == if FitsDigitLimit(n) then Some(n) else None
  {
    ParsePaddedInt(w, n, w');
  }

  // ---------------------------------------------------------------------------
  // Header resolution
  // ---------------------------------------------------------------------------

  /** A data row as `csv.DictReader` yields it, keyed by the header names as they
      are spelled in the file. A key is absent where Python would hold `None`. */
  type CsvRow = map<string, string>

  /** `row.get(key)` where `None` and `""` behave alike (both are false to `or`). */
  function Cell(row: CsvRow, key: string): string {
    if key in row then row[key] else ""
  }

  /** Python's `a or b` on strings. */
  function Or(a: string, b: string): string {
    if a != "" then a else b
  }

  /** The lower-cased header, `[fn.lower() for fn in reader.fieldnames]`. */
  function LowerAll(header: seq<string>): (r: seq<string>)
    ensures |r| == |header|
    ensures forall i :: 0 <= i < |header| ==> r[i] == Lower(header[i])
  {
    seq(|header|, i requires 0 <= i < |header| => Lower(header[i]))
  }

  /** The candidate column `name` appears in the header, compared case-insensitively. */
  predicate Present(header: seq<string>, name: string) {
    Lower(name) in LowerAll(header)
  }

  /** `names[k]` is the first candidate present in the header. */
  predicate FirstPresent(header: seq<string>, names: seq<string>, k: int) {
    && 0 <= k < |names|
    && Present(header, names[k])
    && forall k' :: 0 <= k' < k ==> !Present(header, names[k'])
  }

  /** No candidate for a column appears in the header. */
  predicate ColumnMissing(header: seq<string>, names: seq<string>) {
    forall k :: 0 <= k < |names| ==> !Present(header, names[k])
  }

  /** The position of the first candidate present in the header, if any. */
  function FirstPresentIndex(header: seq<string>, names: seq<string>): (k: Option<nat>)
    ensures k.None? <==> ColumnMissing(header, names)
    ensures k.Some? ==> FirstPresent(header, names, k.value)
    decreases |names|
  {
    if |names| == 0 then None
    else if Present(header, names[0]) then Some(0)
    else
      match FirstPresentIndex(header, names[1..])
      case None => None
      case Some(k) => Some(k + 1)
  }

  /** The first-present candidate is unique. */
  lemma FirstPresentUnique(header: seq<string>, names: seq<string>, k: int)
    requires FirstPresent(header, names, k)
    ensures FirstPresentIndex(header, names) == Some(k)
  {
  }

  /** `get_value(row, *names)` exactly as model.py writes it: the first candidate
      present in the lower-cased header is looked up under its own spelling and
      then under its lower-case spelling, never under the header's spelling;
      no candidate present gives "". */
  function GetValueAsWritten(header: seq<string>, row: CsvRow, names: seq<string>): (r: string)
    ensures r == match FirstPresentIndex(header, names)
      case None => ""
      case Some(k) => Strip(Or(Cell(row, names[k]), Cell(row, Lower(names[k]))))
    decreases |names|
  {
    if |names| == 0 then ""
    else
      var nameLower := Lower(names[0]);
      if nameLower in LowerAll(header) then
        // The trailing `or ""` of the source is already covered by `Cell`.
        Strip(Or(Cell(row, names[0]), Cell(row, nameLower)))
      else
        GetValueAsWritten(header, row, names[1..])
  }

  /** The position of the first header name equal to `nameLower` once lower-cased. */
  function FirstHeaderMatching(header: seq<string>, nameLower: string): (j: nat)
    requires nameLower in LowerAll(header)
    ensures j < |header| && Lower(header[j]) == nameLower
    ensures forall j' :: 0 <= j' < j ==> Lower(header[j']) != nameLower
    decreases |header|
  {
    if Lower(header[0]) == nameLower then 0
    else
      assert LowerAll(header) == [Lower(header[0])] + LowerAll(header[1..]);
      1 + FirstHeaderMatching(header[1..], nameLower)
  }

  /** Column resolution as the loader's documentation promises it: the first
      candidate present in the header, compared case-insensitively, is read from
      the header column it matched, and the value is stripped; no candidate
      present gives "". */
  function GetValue(header: seq<string>, row: CsvRow, names: seq<string>): (r: string)
    ensures r == match FirstPresentIndex(header, names)
      case None => ""
      case Some(k) => Strip(Cell(row, header[FirstHeaderMatching(header, Lower(names[k]))]))
    decreases |names|
  {
    if |names| == 0 then ""
    else
      var nameLower := Lower(names[0]);
      if nameLower in LowerAll(header) then
        Strip(Cell(row, header[FirstHeaderMatching(header, nameLower)]))
      else
        GetValue(header, row, names[1..])
  }

  /** Both readings agree on a header that is already all lower case (and a row
      keyed by it): there the header's spelling is the candidate's lower-case one. */
  lemma {:induction false} GetValueAgreesOnLowerCaseHeader(header: seq<string>, row: CsvRow, names: seq<string>)
    requires forall j :: 0 <= j < |header| ==> Lower(header[j]) == header[j]
    requires forall key :: key in row ==> key in header
    ensures GetValueAsWritten(header, row, names) == GetValue(header, row, names)
    decreases |names|
  {
    if |names| > 0 {
      var nameLower := Lower(names[0]);
      if nameLower in LowerAll(header) {
        var j := FirstHeaderMatching(header, nameLower);
        assert header[j] == nameLower;
        if names[0] in row {
          var j' :| 0 <= j' < |header| && header[j'] == names[0];
          assert names[0] == nameLower;
        }
      } else {
        GetValueAgreesOnLowerCaseHeader(header, row, names[1..]);
      }
    }
  }

  /** The candidate header names for each column, in priority order. */
  const AddressNames: seq<string> := ["Address"]
  const FunctionNames: seq<string> := ["Function", "Func"]
  const NameNames: seq<string> := ["Name", "Description"]
  const UnitNames: seq<string> := ["Unit"]
  const ScalingNames: seq<string> := ["Scaling", "Scale"]
  const DataTypeNames: seq<string> := ["DataType", "Data Type", "Type"]
  const NotesNames: seq<string> := ["Notes", "Comment"]

  /** The candidate lists in column order. */
  const ColumnCandidates: seq<seq<string>> :=
    [AddressNames, FunctionNames, NameNames, UnitNames, ScalingNames, DataTypeNames, NotesNames]

  /** Under a header spelled "Data type", the spelling the loader's own
      documentation names, the source as written reads an empty data type even
      though the cell holds one; the case-insensitive reading finds it. */
  lemma DataTypeHeaderLostAsWritten()
    ensures GetValueAsWritten(["Address", "Data type"], map["Address" := "1", "Data type" := "uint16"], DataTypeNames) == ""
    ensures GetValue(["Address", "Data type"], map["Address" := "1", "Data type" := "uint16"], DataTypeNames) == "uint16"
  {
    var header := ["Address", "Data type"];
    var row := map["Address" := "1", "Data type" := "uint16"];
    DataTypeNamesLowered();
    assert "datatype" !in LowerAll(header);
    assert "Data Type" !in row;
    assert "data type" !in row;
    assert FirstHeaderMatching(header, "data type") == 1;
    StripNoEdges("uint16");
  }

  lemma DataTypeNamesLowered()
    ensures Lower("DataType") == "datatype" && Lower("Data Type") == "data type"
    ensures LowerAll(["Address", "Data type"]) == ["address", "data type"]
  {
    assert Lower("Address") == "address";
    assert Lower("Data type") == "data type";
  }

  /** Every resolved value is already stripped. */
  lemma GetValueStripped(header: seq<string>, row: CsvRow, names: seq<string>)
    ensures Strip(GetValue(header, row, names)) == GetValue(header, row, names)
  {
    match FirstPresentIndex(header, names)
    case None =>
    case Some(k) =>
      StripIdempotent(Cell(row, header[FirstHeaderMatching(header, Lower(names[k]))]));
  }

  /** One register entry from one data row, each column resolved by `GetValue`. */
  function EntryFromRow(header: seq<string>, row: CsvRow): (e: RegisterEntry)
  {
    EntryOfFields(seq(7, f requires 0 <= f < 7 => GetValue(header, row, ColumnCandidates[f])))
  }

  /** Each field of a loaded entry is its column's resolved value: stripped, and
      empty when no candidate for the column is in the header. */
  lemma EntryFromRowField(header: seq<string>, row: CsvRow, f: int)
    requires 0 <= f < 7
    ensures Fields(EntryFromRow(header, row))[f] == GetValue(header, row, ColumnCandidates[f])
    ensures Strip(Fields(EntryFromRow(header, row))[f]) == Fields(EntryFromRow(header, row))[f]
    ensures ColumnMissing(header, ColumnCandidates[f]) ==> Fields(EntryFromRow(header, row))[f] == ""
  {
    GetValueStripped(header, row, ColumnCandidates[f]);
  }

  /** The loop of `from_csv` over the data rows: one entry per row, in file order. */
  function LoadEntries(header: seq<string>, rows: seq<CsvRow>): (es: seq<RegisterEntry>)
    ensures |es| == |rows|
    ensures forall i :: 0 <= i < |rows| ==> es[i] == EntryFromRow(header, rows[i])
  {
    var es := seq(|rows|, i requires 0 <= i < |rows| => EntryFromRow(header, rows[i]));
    es
  }

  /** Every value of a loaded table is stripped, and a column none of whose
      candidates is in the header is empty in every entry rather than an error. */
  lemma LoadedFields(header: seq<string>, rows: seq<CsvRow>, i: int, f: int)
    requires 0 <= i < |rows| && 0 <= f < 7
    ensures Fields(LoadEntries(header, rows)[i])[f] == GetValue(header, rows[i], ColumnCandidates[f])
    ensures Strip(Fields(LoadEntries(header, rows)[i])[f]) == Fields(LoadEntries(header, rows)[i])[f]
    ensures ColumnMissing(header, ColumnCandidates[f]) ==> Fields(LoadEntries(header, rows)[i])[f] == ""
  {
    EntryFromRowField(header, rows[i], f);
  }

  // ---------------------------------------------------------------------------
  // The loader as written
  // ---------------------------------------------------------------------------

  /** One register entry as the loop of `from_csv` builds it, each column
      resolved by the source's own `get_value` (`GetValueAsWritten`). */
  function EntryFromRowAsWritten(header: seq<string>, row: CsvRow): (e: RegisterEntry)
  {
    EntryOfFields(seq(7, f requires 0 <= f < 7 => GetValueAsWritten(header, row, ColumnCandidates[f])))
  }

  /** The loop of `from_csv` as written: one entry per row, in file order. */
  function LoadEntriesAsWritten(header: seq<string>, rows: seq<CsvRow>): (es: seq<RegisterEntry>)
    ensures |es| == |rows|
    ensures forall i :: 0 <= i < |rows| ==> es[i] == EntryFromRowAsWritten(header, rows[i])
  {
    seq(|rows|, i requires 0 <= i < |rows| => EntryFromRowAsWritten(header, rows[i]))
  }

  /** On a header that is all lower case, with rows keyed by it, the loader as
      written and the corrected loader produce the same entries. */
  lemma LoadAgreesOnLowerCaseHeader(header: seq<string>, rows: seq<CsvRow>)
    requires forall j :: 0 <= j < |header| ==> Lower(header[j]) == header[j]
    requires forall i, key :: 0 <= i < |rows| && key in rows[i] ==> key in header
    ensures LoadEntriesAsWritten(header, rows) == LoadEntries(header, rows)
  {
    forall i, f | 0 <= i < |rows| && 0 <= f < 7
      ensures GetValueAsWritten(header, rows[i], ColumnCandidates[f]) == GetValue(header, rows[i], ColumnCandidates[f])
    {
      GetValueAgreesOnLowerCaseHeader(header, rows[i], ColumnCandidates[f]);
    }
    forall i | 0 <= i < |rows|
      ensures EntryFromRowAsWritten(header, rows[i]) == EntryFromRow(header, rows[i])
    {
      var a := Fields(EntryFromRowAsWritten(header, rows[i]));
      var b := Fields(EntryFromRow(header, rows[i]));
      assert forall f :: 0 <= f < 7 ==> a[f] == b[f];
      assert a == b;
    }
  }

  /** The loaded table for a header spelled "Address,Data type" and the row
      "1,uint16": the loop as written loads an empty data type, the corrected
      loader loads "uint16". */
  lemma DataTypeLostOnLoadAsWritten()
    ensures LoadEntriesAsWritten(["Address", "Data type"], [map["Address" := "1", "Data type" := "uint16"]])[0].dataType == ""
    ensures LoadEntries(["Address", "Data type"], [map["Address" := "1", "Data type" := "uint16"]])[0].dataType == "uint16"
  {
    DataTypeHeaderLostAsWritten();
  }
}

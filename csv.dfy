/** The data side of `from_csv` and `save_to_csv`: the record one CSV row
    yields, the all-or-nothing load of a file's rows, and the lines a save
    emits. Files, encodings and quoting stay outside: a file is read as the
    sequence of row dictionaries `csv.DictReader` hands over, and written as
    the sequence of cell lines `csv.DictWriter` receives. `float(text)` and
    `str(x)` on a stipend are the parameters `parse` and `format`. */
module Csv {
  import opened PyValues
  import opened References

  /** One data row, as `csv.DictReader` yields it: column name to cell text. */
  type Row = map<string, string>

  /** What `from_csv` stores for a record that came from a file: text in the
      four text attributes, a float stipend, and every attribute truthy. */
  predicate Storable(r: Reference)
  {
    r.id.PyStr? && r.date.PyStr? && r.fullName.PyStr? && r.stipend.PyFloat? && r.destination.PyStr?
    && r.Validate() == Pass
  }

  /** The four text columns of `row` are present and non-empty, so the
      attributes built from them are truthy. */
  predicate TextsFilled(row: Row)
  {
    && NumberColumn in row && row[NumberColumn] != ""
    && DateColumn in row && row[DateColumn] != ""
    && NameColumn in row && row[NameColumn] != ""
    && DestinationColumn in row && row[DestinationColumn] != ""
  }

  /** One pass of the loop in `from_csv`: the record built from `row` and
      validated, or None where the row raises KeyError (a missing column),
      ValueError from `float` (stipend text that does not parse) or
      ValueError from `validate`. */
  function RowToReference(row: Row, parse: string -> Option<real>): (r: Option<Reference>)
    ensures r.Some? ==> Storable(r.value)
    ensures r.Some? ==> forall c :: c in Header ==> c in row
    ensures r.Some? ==>
      && r.value.id == PyStr(row[NumberColumn]) && r.value.date == PyStr(row[DateColumn])
      && r.value.fullName == PyStr(row[NameColumn]) && r.value.destination == PyStr(row[DestinationColumn])
      && parse(row[StipendColumn]) == Some(r.value.stipend.x)
    ensures (exists c :: c in Header && c !in row) ==> r.None?
    ensures StipendColumn in row && parse(row[StipendColumn]).None? ==> r.None?
    ensures (forall c :: c in Header ==> c in row) && parse(row[StipendColumn]).Some? ==>
      (r.Some? <==> TextsFilled(row) && parse(row[StipendColumn]).value != 0.0)
  {
    if NumberColumn in row && DateColumn in row && NameColumn in row && StipendColumn in row
       && DestinationColumn in row && parse(row[StipendColumn]).Some?
    then
      var ref := Reference(PyStr(row[NumberColumn]), PyStr(row[DateColumn]), PyStr(row[NameColumn]),
                           PyFloat(parse(row[StipendColumn]).value), PyStr(row[DestinationColumn]));
      if ref.Validate() == Pass then Some(ref) else None
    else None
  }

  /** The outcome of `from_csv` on a file whose data rows are `rows`: every
      row's record, in row order, or None if any row fails. */
  function LoadRows(rows: seq<Row>, parse: string -> Option<real>): Option<seq<Reference>>
  {
    if rows == [] then Some([])
    else match (RowToReference(rows[0], parse), LoadRows(rows[1..], parse))
      case (Some(r), Some(rs)) => Some([r] + rs)
      case _ => None
  }

  /** Loading fails exactly when some row fails: no partial collection. */
  lemma {:induction false} LoadRowsFails(rows: seq<Row>, parse: string -> Option<real>)
    ensures LoadRows(rows, parse).None? <==>
      exists i :: 0 <= i < |rows| && RowToReference(rows[i], parse).None?
  {
    if rows != [] {
      LoadRowsFails(rows[1..], parse);
      if RowToReference(rows[0], parse).Some? && LoadRows(rows[1..], parse).Some? {
        forall i | 0 <= i < |rows|
          ensures RowToReference(rows[i], parse).Some?
        {
          if i > 0 {
            assert rows[i] == rows[1..][i - 1];
          }
        }
      } else if RowToReference(rows[0], parse).Some? {
        var j :| 0 <= j < |rows[1..]| && RowToReference(rows[1..][j], parse).None?;
        assert rows[j + 1] == rows[1..][j];
      }
    }
  }

  /** A successful load holds one record per row, in row order. */
  lemma {:induction false} LoadRowsLoadsEach(rows: seq<Row>, parse: string -> Option<real>)
    requires LoadRows(rows, parse).Some?
    ensures |LoadRows(rows, parse).value| == |rows|
    ensures forall i :: 0 <= i < |rows| ==>
      RowToReference(rows[i], parse).Some? && LoadRows(rows, parse).value[i] == RowToReference(rows[i], parse).value
  {
    if rows != [] {
      LoadRowsLoadsEach(rows[1..], parse);
      forall i | 0 < i < |rows|
        ensures LoadRows(rows, parse).value[i] == RowToReference(rows[i], parse).value
      {
        assert rows[i] == rows[1..][i - 1];
      }
    }
  }

  /** Loading one more row: how the loop in `from_csv` extends its result. */
  lemma {:induction false} LoadRowsSnoc(rows: seq<Row>, row: Row, parse: string -> Option<real>)
    ensures LoadRows(rows + [row], parse) ==
      if LoadRows(rows, parse).Some? && RowToReference(row, parse).Some?
      then Some(LoadRows(rows, parse).value + [RowToReference(row, parse).value])
      else None
  {
    if rows != [] {
      assert (rows + [row])[1..] == rows[1..] + [row];
      assert (rows + [row])[0] == rows[0];
      LoadRowsSnoc(rows[1..], row, parse);
      var head, tail := RowToReference(rows[0], parse), LoadRows(rows[1..], parse);
      if head.Some? && tail.Some? && RowToReference(row, parse).Some? {
        var v := RowToReference(row, parse).value;
        assert [head.value] + (tail.value + [v]) == ([head.value] + tail.value) + [v];
      }
    } else {
      assert rows + [row] == [row] && [row][1..] == [];
      assert LoadRows([row][1..], parse) == Some([]);
      if RowToReference(row, parse).Some? {
        assert [RowToReference(row, parse).value] + [] == [] + [RowToReference(row, parse).value];
      }
    }
  }

  /** How `csv.DictWriter` writes one attribute value: None as an empty
      cell, a str as itself, a float through `str`. */
  function Cell(v: Value, format: real -> string): string
  {
    match v
    case PyNone => ""
    case PyStr(s) => s
    case PyFloat(x) => format(x)
  }

  /** The value `d` holds for `key` (None when absent: DictWriter's empty
      `restval`). */
  function Lookup(d: seq<(string, Value)>, key: string): Value
  {
    if d == [] then PyNone else if d[0].0 == key then d[0].1 else Lookup(d[1..], key)
  }

  /** `writer.writerow(d)`: the cells of `d`, in header order. */
  function WriteRow(d: seq<(string, Value)>, format: real -> string): (cells: seq<string>)
    ensures |cells| == |Header|
  {
    seq(|Header|, i requires 0 <= i < |Header| => Cell(Lookup(d, Header[i]), format))
  }

  /** The lines `save_to_csv` writes for records `refs`: the header, then
      one `to_dict` row per record, in stored order. */
  function SavedLines(refs: seq<Reference>, format: real -> string): (lines: seq<seq<string>>)
    ensures |lines| == |refs| + 1 && lines[0] == Header
    ensures forall i :: 0 <= i < |refs| ==> lines[i + 1] == WriteRow(refs[i].ToDict(), format)
  {
    [Header] + seq(|refs|, i requires 0 <= i < |refs| => WriteRow(refs[i].ToDict(), format))
  }

  /** The row dictionary `csv.DictReader` builds from a header line and a
      data line of the same length, `dict(zip(header, cells))`: where a
      column name repeats, the later cell wins. */
  function Zip(header: seq<string>, cells: seq<string>): Row
  {
    if header == [] || cells == [] then map[] else map[header[0] := cells[0]] + Zip(header[1..], cells[1..])
  }

  /** `csv.DictReader` over the lines of a file: the first line is the
      header, every later line becomes a row dictionary. */
  function ReadRows(lines: seq<seq<string>>): (rows: seq<Row>)
    ensures |lines| > 0 ==> |rows| == |lines| - 1
  {
    if lines == [] then [] else seq(|lines| - 1, i requires 0 <= i < |lines| - 1 => Zip(lines[0], lines[i + 1]))
  }

  lemma {:induction false} ZipAt(header: seq<string>, cells: seq<string>, i: nat)
    requires |cells| == |header| && i < |header|
    requires forall j :: i < j < |header| ==> header[j] != header[i]
    ensures header[i] in Zip(header, cells) && Zip(header, cells)[header[i]] == cells[i]
  {
    if i > 0 {
      ZipAt(header[1..], cells[1..], i - 1);
    } else if |header| > 1 {
      ZipOmits(header[1..], cells[1..], header[0]);
    }
  }

  /** A name that is not a column has no entry in the row. */
  lemma {:induction false} ZipOmits(header: seq<string>, cells: seq<string>, name: string)
    requires name !in header
    ensures name !in Zip(header, cells)
  {
    if header != [] && cells != [] {
      ZipOmits(header[1..], cells[1..], name);
    }
  }

  lemma {:induction false} LookupAt(d: seq<(string, Value)>, i: nat)
    requires i < |d|
    requires forall j :: 0 <= j < i ==> d[j].0 != d[i].0
    ensures Lookup(d, d[i].0) == d[i].1
  {
    if i > 0 {
      LookupAt(d[1..], i - 1);
    }
  }

  /** The row read back from the line a record was saved as: column i holds
      the cell of attribute i. */
  lemma SavedRowReadsBack(r: Reference, format: real -> string, i: nat)
    requires i < |Header|
    ensures Header[i] in Zip(Header, WriteRow(r.ToDict(), format))
    ensures Zip(Header, WriteRow(r.ToDict(), format))[Header[i]] == Cell(r.Get(Fields[i]), format)
  {
    var d := r.ToDict();
    forall j | 0 <= j < |Header| && j != i
      ensures Header[j] != Header[i] && d[j].0 != d[i].0
    {
    }
    LookupAt(d, i);
    ZipAt(Header, WriteRow(d, format), i);
  }

  /** A stored record survives its own row: written out and read back, it
      is rebuilt unchanged, given that `float` reads back what `str` wrote. */
  lemma RowRoundTrip(r: Reference, format: real -> string, parse: string -> Option<real>)
    requires Storable(r)
    requires parse(format(r.stipend.x)) == Some(r.stipend.x)
    ensures RowToReference(Zip(Header, WriteRow(r.ToDict(), format)), parse) == Some(r)
  {
    var row := Zip(Header, WriteRow(r.ToDict(), format));
    SavedRowReadsBack(r, format, 0);
    SavedRowReadsBack(r, format, 1);
    SavedRowReadsBack(r, format, 2);
    SavedRowReadsBack(r, format, 3);
    SavedRowReadsBack(r, format, 4);
  }

  /** Saving records that a load could have produced and loading the saved
      lines gives the same records back, in the same order, provided `float`
      reads back what `str` wrote for each stored stipend. */
  lemma SaveLoadRoundTrip(refs: seq<Reference>, format: real -> string, parse: string -> Option<real>)
    requires forall r :: r in refs ==> Storable(r) && parse(format(r.stipend.x)) == Some(r.stipend.x)
    ensures LoadRows(ReadRows(SavedLines(refs, format)), parse) == Some(refs)
  {
    var rows := ReadRows(SavedLines(refs, format));
    forall i | 0 <= i < |rows|
      ensures RowToReference(rows[i], parse) == Some(refs[i])
    {
      assert rows[i] == Zip(Header, WriteRow(refs[i].ToDict(), format));
      RowRoundTrip(refs[i], format, parse);
    }
    LoadRowsFails(rows, parse);
    LoadRowsLoadsEach(rows, parse);
    assert LoadRows(rows, parse).value == refs;
  }
}

/**
 * The CSV store (data_storage.py). A file is a flag saying whether it exists
 * and the rows it holds, each row already split into its fields: quoting,
 * line endings and text encoding belong to the CSV writer and reader and are
 * not modelled. Rows are read the way `csv.DictReader` hands them out: the
 * first row is the header, an empty row (a blank line) is skipped, and a
 * field is found by its column name in the header.
 */
module DataStorage {
  import opened Wrappers
  import opened Strings
  import opened Models

  type Row = seq<string>

  /** `CSV_HEADERS` */
  const CsvHeaders: Row := ["brand", "model", "size", "color"]

  /** Why a load fails: the file has no header row, or a data row is not a
    * valid shoe (the line number counts the header as line 1 and skipped
    * blank rows not at all, as `enumerate(reader, start=2)` does). */
  datatype LoadError = MissingHeaders | InvalidLine(line: nat, row: Row)

  /** Position of the last column called `name`, or -1. */
  function LastIndexOf(header: Row, name: string): (j: int)
    ensures -1 <= j < |header|
    ensures j < 0 <==> name !in header
    ensures j >= 0 ==> header[j] == name
    ensures forall k :: j < k < |header| ==> header[k] != name
  {
    if header == [] then -1
    else if header[|header| - 1] == name then |header| - 1
    else LastIndexOf(header[..|header| - 1], name)
  }

  /** `row.get(name) or ""` for the dict `csv.DictReader` builds from a row:
    * a later column of the same name overrides an earlier one, and a column
    * the row is too short for reads as missing. */
  function Column(header: Row, row: Row, name: string): (cell: string)
    ensures name !in header ==> cell == ""
    ensures cell != "" ==> exists j :: 0 <= j < |header| && j < |row| && header[j] == name && cell == row[j]
    ensures forall j :: 0 <= j < |header| && header[j] == name && name !in header[j + 1..] ==>
      cell == if j < |row| then row[j] else ""
  {
    var last := LastIndexOf(header, name);
    if 0 <= last < |row| then row[last] else ""
  }

  /** Turns one data row into a shoe, or None when the row is invalid. */
  type Decoder = Row -> Option<Shoe>

  /** The body of the load loop for one row once its four cells are looked
    * up: trim them, reject an empty one, and parse the size with `float`.
    * None is the ValueError the loop turns into an error naming the line. */
  function ShoeFromFields(brand: string, model: string, sizeText: string, color: string): (r: Option<Shoe>)
    ensures r.Some? ==> Storable(r.value)
    ensures r.Some? ==> brand != [] && model != [] && sizeText != [] && color != []
  {
    TrimBlank([]);
    var b, m, c, st := Trim(brand), Trim(model), Trim(color), Trim(sizeText);
    if b == [] || m == [] || c == [] || st == [] then None
    else
      match ParseSize(st)
      case None => None
      case Some(size) => Some(Shoe(b, m, size, c))
  }

  /** Cells yield a shoe exactly when the trimmed brand, model and color are
    * non-empty and the trimmed size parses; the shoe's fields are then
    * those trimmed values and that size. */
  lemma ShoeFromFieldsIff(brand: string, model: string, sizeText: string, color: string, shoe: Shoe)
    ensures ShoeFromFields(brand, model, sizeText, color) == Some(shoe) <==>
      && shoe.brand == Trim(brand) != []
      && shoe.model == Trim(model) != []
      && shoe.color == Trim(color) != []
      && ParseSize(Trim(sizeText)) == Some(shoe.size)
  {
    if Trim(sizeText) == [] {
      EmptySizeRejected();
    }
  }

  /** `float("")` raises. */
  lemma EmptySizeRejected()
    ensures ParseSize([]) == None
  {
    assert Trim([]) == [];
  }

  /** One row of the `csv.DictReader` loop: look up the four cells by
    * column name, then decode them. */
  function DecodeRow(header: Row, row: Row): (r: Option<Shoe>)
    ensures r.Some? ==> Storable(r.value)
    ensures r.Some? ==> "brand" in header && "model" in header && "size" in header && "color" in header
  {
    ShoeFromFields(Column(header, row, "brand"), Column(header, row, "model"),
                   Column(header, row, "size"), Column(header, row, "color"))
  }

  /** The decoder for the data rows of a file with this header row. */
  function RowDecoder(header: Row): Decoder {
    row => DecodeRow(header, row)
  }

  /** Data rows that are not blank, in file order. */
  function NonBlank(rows: seq<Row>): (r: seq<Row>)
    ensures |r| <= |rows|
    ensures forall i :: 0 <= i < |r| ==> r[i] != []
    ensures forall x :: x in r <==> x in rows && x != []
    ensures forall x :: multiset(r)[x] == if x == [] then 0 else multiset(rows)[x]
  {
    if rows == [] then []
    else
      assert rows == [rows[0]] + rows[1..];
      if rows[0] == [] then NonBlank(rows[1..])
      else [rows[0]] + NonBlank(rows[1..])
  }

  /** One more row read from the file: a blank one is dropped, any other
    * comes after the rows kept so far. */
  lemma {:induction false} NonBlankSnoc(rows: seq<Row>, row: Row)
    ensures NonBlank(rows + [row]) == NonBlank(rows) + (if row == [] then [] else [row])
    decreases |rows|
  {
    if rows == [] {
      assert [] + [row] == [row];
      assert [row][1..] == [];
    } else {
      assert (rows + [row])[1..] == rows[1..] + [row];
      NonBlankSnoc(rows[1..], row);
    }
  }

  /** What the load loop returns for `rows` when the first of them is
    * numbered `line`: the shoes of all rows, or the first bad row. */
  function DecodeFrom(decode: Decoder, rows: seq<Row>, line: nat): (r: Result<seq<Shoe>, LoadError>)
    ensures r.Err? ==> r.error.InvalidLine? && r.error.line >= line
    decreases |rows|
  {
    if rows == [] then Ok([])
    else if rows[0] == [] then DecodeFrom(decode, rows[1..], line)
    else
      match decode(rows[0])
      case None => Err(InvalidLine(line, rows[0]))
      case Some(shoe) =>
        match DecodeFrom(decode, rows[1..], line + 1)
        case Ok(rest) => Ok([shoe] + rest)
        case Err(e) => Err(e)
  }

  /** `load_inventory` on the rows of an existing file. */
  function LoadResult(rows: seq<Row>): (r: Result<seq<Shoe>, LoadError>)
    ensures r == Err(MissingHeaders) <==> rows == []
  {
    if rows == [] then Err(MissingHeaders) else DecodeFrom(RowDecoder(rows[0]), rows[1..], 2)
  }

  /** The rows `save_inventory` writes: the header, then one row per shoe. */
  function SavedRows(shoes: seq<Shoe>): (rows: seq<Row>)
    ensures |rows| == |shoes| + 1 && rows[0] == CsvHeaders
  {
    if shoes == [] then [CsvHeaders]
    else SavedRows(shoes[..|shoes| - 1]) + [shoes[|shoes| - 1].ToRow()]
  }

  /** Row `i + 1` of the file is the row of the `i`-th shoe. */
  lemma {:induction false} SavedRowsAt(shoes: seq<Shoe>, i: nat)
    requires i < |shoes|
    ensures SavedRows(shoes)[i + 1] == shoes[i].ToRow()
  {
    var n := |shoes| - 1;
    var init := shoes[..n];
    assert SavedRows(shoes) == SavedRows(init) + [shoes[n].ToRow()];
    if i < n {
      SavedRowsAt(init, i);
      assert init[i] == shoes[i];
    }
  }

  /** Prefix an accumulated list onto a load result. */
  function Prepend(acc: seq<Shoe>, r: Result<seq<Shoe>, LoadError>): Result<seq<Shoe>, LoadError> {
    match r
    case Ok(v) => Ok(acc + v)
    case Err(e) => Err(e)
  }

  /** Prefixing twice is prefixing once with both lists. */
  lemma PrependTwice(acc: seq<Shoe>, shoe: Shoe, r: Result<seq<Shoe>, LoadError>)
    ensures Prepend(acc, Prepend([shoe], r)) == Prepend(acc + [shoe], r)
  {
    if r.Ok? {
      assert acc + ([shoe] + r.value) == (acc + [shoe]) + r.value;
    }
  }

  /** One good row moves from the rows still to read to the shoes read. */
  lemma DecodeStep(decode: Decoder, rows: seq<Row>, line: nat, acc: seq<Shoe>, shoe: Shoe)
    requires rows != [] && rows[0] != [] && decode(rows[0]) == Some(shoe)
    ensures Prepend(acc, DecodeFrom(decode, rows, line))
         == Prepend(acc + [shoe], DecodeFrom(decode, rows[1..], line + 1))
  {
    assert DecodeFrom(decode, rows, line) == Prepend([shoe], DecodeFrom(decode, rows[1..], line + 1));
    PrependTwice(acc, shoe, DecodeFrom(decode, rows[1..], line + 1));
  }

  /** Nothing accumulated yet. */
  lemma PrependNothing(r: Result<seq<Shoe>, LoadError>)
    ensures Prepend([], r) == r
  {
    if r.Ok? {
      assert [] + r.value == r.value;
    }
  }

  /** The `for i, row in enumerate(reader, start=2)` loop: decode the data
    * rows in order with `decode` (for a file, the decoder of its header
    * row), stopping at the first bad one. */
  method DecodeRows(decode: Decoder, rows: seq<Row>) returns (r: Result<seq<Shoe>, LoadError>)
    ensures r == DecodeFrom(decode, rows, 2)
  {
    var shoes: seq<Shoe> := [];
    var line := 2;
    var k := 0;
    PrependNothing(DecodeFrom(decode, rows, 2));
    assert rows[0..] == rows;
    while k < |rows|
      invariant 0 <= k <= |rows|
      invariant DecodeFrom(decode, rows, 2) == Prepend(shoes, DecodeFrom(decode, rows[k..], line))
    {
      var row := rows[k];
      if row != [] {
        var decoded := decode(row);
        if decoded.None? {
          assert DecodeFrom(decode, rows, 2) == Err(InvalidLine(line, row)) by {
            assert rows[k..][0] == row;
            DecodeFail(decode, rows[k..], line, shoes);
          }
          return Err(InvalidLine(line, row));
        }
        assert Prepend(shoes, DecodeFrom(decode, rows[k..], line))
            == Prepend(shoes + [decoded.value], DecodeFrom(decode, rows[k + 1..], line + 1)) by {
          assert rows[k..][0] == row && rows[k..][1..] == rows[k + 1..];
          DecodeStep(decode, rows[k..], line, shoes, decoded.value);
        }
        shoes := shoes + [decoded.value];
        line := line + 1;
      } else {
        assert DecodeFrom(decode, rows[k..], line) == DecodeFrom(decode, rows[k + 1..], line) by {
          assert rows[k..][0] == row && rows[k..][1..] == rows[k + 1..];
          DecodeSkip(decode, rows[k..], line);
        }
      }
      k := k + 1;
    }
    assert shoes + [] == shoes;
    r := Ok(shoes);
  }

  /** A blank row is skipped without taking a line number. */
  lemma DecodeSkip(decode: Decoder, rows: seq<Row>, line: nat)
    requires rows != [] && rows[0] == []
    ensures DecodeFrom(decode, rows, line) == DecodeFrom(decode, rows[1..], line)
  {
  }

  /** A bad row ends the load with its line number, whatever was read
    * before it. */
  lemma DecodeFail(decode: Decoder, rows: seq<Row>, line: nat, acc: seq<Shoe>)
    requires rows != [] && rows[0] != [] && decode(rows[0]).None?
    ensures Prepend(acc, DecodeFrom(decode, rows, line)) == Err(InvalidLine(line, rows[0]))
  {
  }

  lemma SavedRowsSnoc(shoes: seq<Shoe>, i: nat)
    requires i < |shoes|
    ensures SavedRows(shoes[..i + 1]) == SavedRows(shoes[..i]) + [shoes[i].ToRow()]
  {
    assert shoes[..i + 1][..i] == shoes[..i];
  }

  /** Every non-blank row among `rows` yields a shoe. */
  predicate AllDecode(decode: Decoder, rows: seq<Row>) {
    forall k :: 0 <= k < |rows| && rows[k] != [] ==> decode(rows[k]).Some?
  }

  /** Loading succeeds exactly when every non-blank row yields a shoe, and
    * then gives one shoe per non-blank row, in file order. */
  lemma {:induction false} DecodeFromOk(decode: Decoder, rows: seq<Row>, line: nat)
    ensures DecodeFrom(decode, rows, line).Ok? <==> AllDecode(decode, rows)
    ensures DecodeFrom(decode, rows, line).Ok? ==>
      var shoes := DecodeFrom(decode, rows, line).value;
      && |shoes| == |NonBlank(rows)|
      && forall i :: 0 <= i < |shoes| ==> decode(NonBlank(rows)[i]) == Some(shoes[i])
    decreases |rows|
  {
    if rows != [] {
      var rest := rows[1..];
      DecodeFromOk(decode, rest, if rows[0] == [] then line else line + 1);
      assert forall k :: 0 < k < |rows| ==> rows[k] == rest[k - 1];
      if AllDecode(decode, rest) && (rows[0] == [] || decode(rows[0]).Some?) {
        assert AllDecode(decode, rows);
      }
    }
  }

  /** The first row that does not yield a shoe is the one reported, under
    * its line number: `line` plus the non-blank rows before it. */
  lemma {:induction false} DecodeFromFirstBad(decode: Decoder, rows: seq<Row>, line: nat, k: nat)
    requires k < |rows| && rows[k] != [] && decode(rows[k]).None?
    requires AllDecode(decode, rows[..k])
    ensures DecodeFrom(decode, rows, line) == Err(InvalidLine(line + |NonBlank(rows[..k])|, rows[k]))
    decreases k
  {
    if k > 0 {
      var rest := rows[1..];
      assert rows[..k][0] == rows[0];
      assert rows[..k][1..] == rest[..k - 1];
      ghost var pre := rest[..k - 1];
      assert AllDecode(decode, pre) by {
        forall j | 0 <= j < |pre| && pre[j] != []
          ensures decode(pre[j]).Some?
        {
          assert pre[j] == rows[..k][j + 1];
        }
      }
      DecodeFromFirstBad(decode, rest, if rows[0] == [] then line else line + 1, k - 1);
    }
  }

  /** A shoe whose text fields are non-empty and carry no surrounding
    * whitespace: the kind of shoe a save writes out and a load reads back
    * unchanged. */
  predicate Storable(shoe: Shoe) {
    && shoe.brand != [] && IsTrimmed(shoe.brand)
    && shoe.model != [] && IsTrimmed(shoe.model)
    && shoe.color != [] && IsTrimmed(shoe.color)
  }

  /** Under the header `save_inventory` writes, each column of a shoe's row
    * holds the field of that name. */
  lemma RowMatchesHeaders(shoe: Shoe)
    ensures Column(CsvHeaders, shoe.ToRow(), "brand") == shoe.brand
    ensures Column(CsvHeaders, shoe.ToRow(), "model") == shoe.model
    ensures Column(CsvHeaders, shoe.ToRow(), "size") == FormatSize(shoe.size)
    ensures Column(CsvHeaders, shoe.ToRow(), "color") == shoe.color
  {
    var row := shoe.ToRow();
    HeaderColumns(row);
  }

  /** Under the CSV header, the columns of a four-cell row are its cells in
    * order. */
  lemma HeaderColumns(row: Row)
    requires |row| == 4
    ensures Column(CsvHeaders, row, "brand") == row[0]
    ensures Column(CsvHeaders, row, "model") == row[1]
    ensures Column(CsvHeaders, row, "size") == row[2]
    ensures Column(CsvHeaders, row, "color") == row[3]
  {
    var h := CsvHeaders;
    HeaderNamesDistinct();
    assert h[1..] == ["model", "size", "color"] && h[2..] == ["size", "color"] && h[3..] == ["color"] && h[4..] == [];
    ColumnOfLast(h, row, "brand", 0);
    ColumnOfLast(h, row, "model", 1);
    ColumnOfLast(h, row, "size", 2);
    ColumnOfLast(h, row, "color", 3);
  }

  /** The four column names of the CSV header differ from each other. */
  lemma HeaderNamesDistinct()
    ensures "brand" != "model" && "brand" != "size" && "brand" != "color"
    ensures "model" != "size" && "model" != "color" && "size" != "color"
  {
    assert "brand"[0] == 'b' && "model"[0] == 'm' && "size"[0] == 's' && "color"[0] == 'c';
  }

  /** The cell under the last column of a name is that column's entry. */
  lemma ColumnOfLast(header: Row, row: Row, name: string, j: nat)
    requires j < |header| && j < |row| && header[j] == name && name !in header[j + 1..]
    ensures Column(header, row, name) == row[j]
  {
  }

  /** A storable shoe's cells decode to that shoe. */
  lemma FieldsRoundTrip(shoe: Shoe)
    requires Storable(shoe)
    ensures ShoeFromFields(shoe.brand, shoe.model, FormatSize(shoe.size), shoe.color) == Some(shoe)
  {
    var sizeText := FormatSize(shoe.size);
    TrimFixedPoint(shoe.brand);
    TrimFixedPoint(shoe.model);
    TrimFixedPoint(shoe.color);
    TrimFixedPoint(sizeText);
    FormatParseRoundTrip(shoe.size);
    ShoeFromFieldsIff(shoe.brand, shoe.model, sizeText, shoe.color, shoe);
  }

  /** A storable shoe's row decodes to that shoe. */
  lemma DecodeSavedRow(shoe: Shoe)
    requires Storable(shoe)
    ensures DecodeRow(CsvHeaders, shoe.ToRow()) == Some(shoe)
  {
    RowMatchesHeaders(shoe);
    FieldsRoundTrip(shoe);
  }

  /** Rows each of which is non-blank and decodes to its shoe load as those
    * shoes. */
  lemma {:induction false} DecodeAllGood(decode: Decoder, rows: seq<Row>, shoes: seq<Shoe>, line: nat)
    requires |rows| == |shoes|
    requires forall i :: 0 <= i < |rows| ==> rows[i] != [] && decode(rows[i]) == Some(shoes[i])
    ensures DecodeFrom(decode, rows, line) == Ok(shoes)
    decreases |rows|
  {
    if rows != [] {
      DecodeAllGood(decode, rows[1..], shoes[1..], line + 1);
      assert [shoes[0]] + shoes[1..] == shoes;
    }
  }

  /** Saving storable shoes and loading the file gives back the same list. */
  lemma SaveLoadRoundTrip(shoes: seq<Shoe>)
    requires forall i :: 0 <= i < |shoes| ==> Storable(shoes[i])
    ensures LoadResult(SavedRows(shoes)) == Ok(shoes)
  {
    var rows := SavedRows(shoes)[1..];
    forall i | 0 <= i < |rows|
      ensures rows[i] != [] && RowDecoder(CsvHeaders)(rows[i]) == Some(shoes[i])
    {
      SavedRowsAt(shoes, i);
      DecodeSavedRow(shoes[i]);
    }
    DecodeAllGood(RowDecoder(CsvHeaders), rows, shoes, 2);
  }

  /** The CSV file at the inventory's path. */
  class CsvFile {
    var present: bool
    var rows: seq<Row>

    constructor (present: bool, rows: seq<Row>)
      ensures this.present == present && this.rows == rows
    {
      this.present := present;
      this.rows := rows;
    }

    /** `ensure_csv_exists`: a missing file is created holding just the
      * header row; an existing file is left alone. */
    method EnsureExists()
      modifies this
      ensures present
      ensures rows == if old(present) then old(rows) else [CsvHeaders]
    {
      if !present {
        present := true;
        rows := [CsvHeaders];
      }
    }

    /** `load_inventory`: make sure the file exists, then read it. The file
      * keeps its rows. */
    method LoadInventory() returns (r: Result<seq<Shoe>, LoadError>)
      modifies this
      ensures present
      ensures rows == if old(present) then old(rows) else [CsvHeaders]
      ensures r == LoadResult(rows)
    {
      EnsureExists();
      if rows == [] {
        return Err(MissingHeaders);
      }
      r := DecodeRows(RowDecoder(rows[0]), rows[1..]);
    }

    /** `save_inventory`: rewrite the whole file with the header and one row
      * per shoe, in list order. */
    method SaveInventory(shoes: seq<Shoe>)
      modifies this
      ensures present && rows == SavedRows(shoes)
    {
      EnsureExists();
      rows := [CsvHeaders];
      assert rows == SavedRows(shoes[..0]);
      for i := 0 to |shoes|
        invariant present
        invariant rows == SavedRows(shoes[..i])
      {
        SavedRowsSnoc(shoes, i);
        rows := rows + [shoes[i].ToRow()];
      }
      assert shoes[..|shoes|] == shoes;
    }
  }

  /** Calling `ensure_csv_exists` twice does what calling it once does. */
  method EnsureExistsIdempotent(file: CsvFile)
    modifies file
    ensures file.present
    ensures file.rows == if old(file.present) then old(file.rows) else [CsvHeaders]
  {
    file.EnsureExists();
    ghost var once := file.rows;
    file.EnsureExists();
    assert file.rows == once;
  }
}

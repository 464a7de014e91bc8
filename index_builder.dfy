/**
 * The artifact rules of main in app/build_index.py: the CSV must exist and hold the required
 * columns, the FAISS index receives one embedding per shot, and the metadata table keeps the
 * present columns of a fixed list plus a display title.
 */
module IndexBuilder {
  import opened Wrappers
  import opened Text
  import opened Vectors
  import opened Embedder
  import opened TextCompositor
  import opened Fusion
  import opened Subsequences

  /** A CSV as pandas reads it: the column names in file order and one row per shot. */
  datatype Table = Table(columns: seq<string>, rows: seq<Row>)

  const REQUIRED_COLUMNS: seq<string> := ["shot_id", "start_time"]
  const META_CANDIDATES: seq<string> := ["shot_id", "start_time", "end_time", "characters"]
  const TITLE: string := "title"

  datatype BuildError = CsvNotFound | MissingColumns(missing: seq<string>)

  /** What the build writes: the rows added to the index, and meta.csv (its header and rows). */
  datatype Artifacts = Artifacts(index: seq<Vector>, metaColumns: seq<string>, meta: seq<Row>)

  /** fillna(""): every missing cell becomes the empty string. */
  function FillRow(row: Row): (r: Row)
    ensures r.Keys == row.Keys
    ensures forall c :: c in r ==> r[c].Value?
  {
    map c | c in row :: if row[c].Null? then Value("") else row[c]
  }

  /** fillna("") over a list of rows. */
  function FillRows(rows: seq<Row>): (r: seq<Row>)
    ensures |r| == |rows|
    ensures forall i :: 0 <= i < |rows| ==> r[i] == FillRow(rows[i])
  {
    seq(|rows|, i requires 0 <= i < |rows| => FillRow(rows[i]))
  }

  function FillNa(table: Table): (r: Table)
    ensures r.columns == table.columns && |r.rows| == |table.rows|
  {
    Table(table.columns, FillRows(table.rows))
  }

  /** The candidates that are columns of the table, in candidate order. */
  function Present(candidates: seq<string>, columns: seq<string>): (r: seq<string>)
    ensures forall c :: c in r <==> c in candidates && c in columns
  {
    if candidates == [] then []
    else
      var c := candidates[|candidates| - 1];
      Present(candidates[..|candidates| - 1], columns) + (if c in columns then [c] else [])
  }

  /** The candidates that are not columns of the table, in candidate order. */
  function Absent(candidates: seq<string>, columns: seq<string>): (r: seq<string>)
    ensures forall c :: c in r <==> c in candidates && c !in columns
  {
    if candidates == [] then []
    else
      var c := candidates[|candidates| - 1];
      Absent(candidates[..|candidates| - 1], columns) + (if c !in columns then [c] else [])
  }

  /** Present keeps the candidates' order. */
  lemma {:induction false} PresentKeepsOrder(candidates: seq<string>, columns: seq<string>)
    ensures IsSubsequence(Present(candidates, columns), candidates)
  {
    if candidates != [] {
      var init, c := candidates[..|candidates| - 1], candidates[|candidates| - 1];
      var p := Present(init, columns);
      PresentKeepsOrder(init, columns);
      assert candidates == init + [c];
      if c in columns {
        KeepLast(p, init, c);
        assert Present(candidates, columns) == p + [c];
      } else {
        DropLast(p, init, c);
        assert Present(candidates, columns) == p;
      }
    }
  }

  /**
   * The column the display title is taken from: detailed_caption, else narrative, else shot_id.
   * Once the required columns are present it is always a column of the table.
   */
  function TitleColumn(columns: seq<string>): (t: string)
    ensures "shot_id" in columns ==> t in columns
    ensures t == "detailed_caption" <==> "detailed_caption" in columns
    ensures t == "narrative" <==> "detailed_caption" !in columns && "narrative" in columns
    ensures "detailed_caption" !in columns && "narrative" !in columns ==> t == "shot_id"
  {
    if "detailed_caption" in columns then "detailed_caption"
    else if "narrative" in columns then "narrative"
    else "shot_id"
  }

  /** One row of meta.csv: the selected columns of the shot and its title. */
  function MetaRow(row: Row, metaColumns: seq<string>, titleColumn: string): (r: Row)
    requires TITLE !in metaColumns
    ensures r.Keys == (set c | c in metaColumns) + {TITLE}
    ensures forall c :: c in metaColumns && c in row ==> r[c] == row[c]
    ensures forall c :: c in metaColumns && c !in row ==> r[c] == Value("")
    ensures r[TITLE] == Value(CellString(row, titleColumn))
  {
    (map c | c in metaColumns && c in row :: row[c])
      + (map c | c in metaColumns && c !in row :: Value(""))
      + map[TITLE := Value(CellString(row, titleColumn))]
  }

  /** The rows of meta.csv, one per row of the filled table. */
  function MetaRows(df: Table): (meta: seq<Row>)
    ensures |meta| == |df.rows|
  {
    var metaColumns := Present(META_CANDIDATES, df.columns);
    var titleColumn := TitleColumn(df.columns);
    seq(|df.rows|, i requires 0 <= i < |df.rows| => MetaRow(df.rows[i], metaColumns, titleColumn))
  }

  /** The metadata header: the present candidates, then the title. */
  function MetaColumns(columns: seq<string>): seq<string> {
    Present(META_CANDIDATES, columns) + [TITLE]
  }

  /** The metadata header: the present candidates in candidate order, then title. */
  lemma MetaColumnsShape(columns: seq<string>)
    ensures forall c :: c in MetaColumns(columns) <==> c == TITLE || (c in META_CANDIDATES && c in columns)
    ensures IsSubsequence(MetaColumns(columns)[..|MetaColumns(columns)| - 1], META_CANDIDATES)
    ensures MetaColumns(columns)[|MetaColumns(columns)| - 1] == TITLE
  {
    PresentKeepsOrder(META_CANDIDATES, columns);
    var p := Present(META_CANDIDATES, columns);
    assert MetaColumns(columns)[..|p|] == p;
  }

  /** The build of main after argument parsing: CSV check, column check, embeddings, index and meta. */
  method BuildArtifacts(csvExists: bool, csv: Table, model: Model, dim: nat, sqrt: real -> real)
    returns (r: Result<Artifacts, BuildError>)
    requires Embeds(model, dim) && IsSqrt(sqrt)
    ensures !csvExists ==> r == Failure(CsvNotFound)
    ensures csvExists && Absent(REQUIRED_COLUMNS, csv.columns) != [] ==>
      r == Failure(MissingColumns(Absent(REQUIRED_COLUMNS, csv.columns)))
    ensures r.Success? <==> csvExists && Absent(REQUIRED_COLUMNS, csv.columns) == []
    ensures r.Success? ==>
      && r.value.metaColumns == MetaColumns(csv.columns)
      && r.value.meta == MetaRows(FillNa(csv))
      && |r.value.index| == |csv.rows|
      && forall i :: 0 <= i < |csv.rows| ==> r.value.index[i] == ShotVector(model, dim, sqrt, FillNa(csv).rows[i])
  {
    if !csvExists {
      return Failure(CsvNotFound);
    }
    var df := FillNa(csv);
    var missing := Absent(REQUIRED_COLUMNS, df.columns);
    if missing != [] {
      return Failure(MissingColumns(missing));
    }
    var embs := BuildEmbeddings(df.rows, model, dim, sqrt);
    // the index starts empty, so after index.add it holds exactly the embeddings
    var index := embs;
    var metaColumns := Present(META_CANDIDATES, df.columns);
    var meta := MetaRows(df);
    return Success(Artifacts(index, metaColumns + [TITLE], meta));
  }

  /**
   * Row i of meta.csv holds the selected cells of shot i, with a missing value written as "",
   * and its title is the text of the title column, or "" when that cell was missing.
   */
  lemma MetaRowsAt(csv: Table, i: nat)
    requires i < |csv.rows|
    ensures var row, m := csv.rows[i], MetaRows(FillNa(csv))[i];
      forall c :: c in Present(META_CANDIDATES, csv.columns) && c in row ==>
        m[c] == if row[c].Null? then Value("") else row[c]
    ensures var row, t := csv.rows[i], TitleColumn(csv.columns);
      t in row ==>
        MetaRows(FillNa(csv))[i][TITLE] == Value(if row[t].Null? then "" else row[t].text)
  {
    var row := csv.rows[i];
    var metaColumns, t := Present(META_CANDIDATES, csv.columns), TitleColumn(csv.columns);
    assert TITLE !in META_CANDIDATES;
    assert MetaRows(FillNa(csv))[i] == MetaRow(FillRow(row), metaColumns, t);
    if t in row {
      FilledTitle(row, t);
    }
  }

  /** After fillna no cell prints as "nan": a shot's title is its cell text, or "" when it was missing. */
  lemma FilledTitle(row: Row, column: string)
    requires column in row
    ensures CellString(FillRow(row), column) == if row[column].Null? then "" else row[column].text
  {
  }

  /** fillna("") does not change the composite texts: join_fields already reads NaN as "". */
  lemma {:induction false} FillKeepsValues(row: Row, fields: seq<string>)
    ensures Values(FillRow(row), fields) == Values(row, fields)
  {
    if fields != [] {
      var n := |fields| - 1;
      FillKeepsValues(row, fields[..n]);
      assert FieldText(FillRow(row), fields[n]) == FieldText(row, fields[n]);
    }
  }
}

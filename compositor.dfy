/** The text compositor of app/build_index.py: join_fields and build_semantic_texts. */
module TextCompositor {
  import opened Text

  /** A cell of the shot CSV as pandas holds it: a value (its str() text) or a missing value (NaN). */
  datatype Cell = Value(text: string) | Null

  /** One CSV row: column name to cell. A column the CSV does not have is absent. */
  type Row = map<string, Cell>

  /** str() of a cell, as astype(str) or str(row.get(column, "")) prints it: "nan" for a missing value, "" for an absent column. */
  function CellString(row: Row, column: string): string {
    if column !in row then ""
    else match row[column]
      case Value(t) => t
      case Null => "nan"
  }

  const VIDEO_FIELDS: seq<string> :=
    ["detailed_caption", "visual_details", "location", "actions", "mood", "characters"]

  const DIALOGUE_FIELDS: seq<string> := ["stt_text", "narrative"]

  /** The field's text as join_fields reads it: a missing column or a NaN cell is "". */
  function FieldText(row: Row, field: string): string {
    if field in row && row[field].Value? then row[field].text else ""
  }

  /** The stripped, non-blank values of the listed fields, in list order. */
  function Values(row: Row, fields: seq<string>): (vals: seq<string>)
    ensures |vals| <= |fields|
  {
    if fields == [] then []
    else
      var v := Strip(FieldText(row, fields[|fields| - 1]));
      Values(row, fields[..|fields| - 1]) + (if v != "" then [v] else [])
  }

  /** Every collected value is non-empty and carries no surrounding whitespace. */
  lemma {:induction false} ValuesTrimmed(row: Row, fields: seq<string>)
    ensures forall i :: 0 <= i < |Values(row, fields)| ==>
      Values(row, fields)[i] != "" && IsTrimmed(Values(row, fields)[i])
  {
    if fields != [] {
      var n := |fields| - 1;
      ValuesTrimmed(row, fields[..n]);
      StripShape(FieldText(row, fields[n]));
    }
  }

  /** The composite text of a field group: its values joined by single spaces. */
  function Joined(row: Row, fields: seq<string>): (r: string)
    ensures IsTrimmed(r)
  {
    ValuesTrimmed(row, fields);
    JoinTrimmed(Values(row, fields));
    JoinWithSpaces(Values(row, fields))
  }

  /** Each listed field is blank (missing, NaN, or whitespace only). */
  predicate AllBlank(row: Row, fields: seq<string>) {
    forall i :: 0 <= i < |fields| ==> Strip(FieldText(row, fields[i])) == ""
  }

  /** AllBlank of a non-empty list splits into its init and its last field. */
  lemma AllBlankSnoc(row: Row, fields: seq<string>)
    requires fields != []
    ensures AllBlank(row, fields) <==>
      AllBlank(row, fields[..|fields| - 1]) && Strip(FieldText(row, fields[|fields| - 1])) == ""
  {
    var n := |fields| - 1;
    var init := fields[..n];
    if AllBlank(row, fields) {
      forall i | 0 <= i < n
        ensures Strip(FieldText(row, init[i])) == ""
      {
        assert init[i] == fields[i];
      }
    }
    if AllBlank(row, init) && Strip(FieldText(row, fields[n])) == "" {
      forall i | 0 <= i < |fields|
        ensures Strip(FieldText(row, fields[i])) == ""
      {
        if i < n {
          assert init[i] == fields[i];
        }
      }
    }
  }

  /** A group contributes no value exactly when each of its fields is blank. */
  lemma {:induction false} ValuesEmptyIff(row: Row, fields: seq<string>)
    ensures Values(row, fields) == [] <==> AllBlank(row, fields)
  {
    if fields != [] {
      ValuesEmptyIff(row, fields[..|fields| - 1]);
      AllBlankSnoc(row, fields);
    }
  }

  /** The composite text carries no surrounding whitespace and is empty iff every field is blank. */
  lemma JoinedShape(row: Row, fields: seq<string>)
    ensures IsTrimmed(Joined(row, fields))
    ensures Joined(row, fields) == "" <==> AllBlank(row, fields)
  {
    ValuesTrimmed(row, fields);
    JoinTrimmed(Values(row, fields));
    ValuesEmptyIff(row, fields);
  }

  /** join_fields: collects the non-blank stripped values, joins them by spaces and strips the result. */
  method JoinFields(row: Row, fields: seq<string>) returns (r: string)
    ensures r == Joined(row, fields)
    ensures IsTrimmed(r)
    ensures r == "" <==> AllBlank(row, fields)
  {
    var vals: seq<string> := [];
    for i := 0 to |fields|
      invariant vals == Values(row, fields[..i])
    {
      assert fields[..i + 1][..i] == fields[..i];
      var v := Strip(FieldText(row, fields[i]));
      if v != "" {
        vals := vals + [v];
      }
    }
    assert fields[..|fields|] == fields;
    JoinedShape(row, fields);
    StripShape(JoinWithSpaces(vals));
    r := Strip(JoinWithSpaces(vals));
  }

  /** build_semantic_texts: the video text and the dialogue text of one shot. */
  method BuildSemanticTexts(row: Row) returns (video: string, dialogue: string)
    ensures video == Joined(row, VIDEO_FIELDS) && dialogue == Joined(row, DIALOGUE_FIELDS)
  {
    video := JoinFields(row, VIDEO_FIELDS);
    dialogue := JoinFields(row, DIALOGUE_FIELDS);
  }
}

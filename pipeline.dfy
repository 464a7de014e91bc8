/**
 * The two halves of the pipeline together: the artifacts build_index.py writes are the ones
 * SceneRetriever loads, so a successful build always opens, and reading meta.csv back with
 * fillna("") restores the rows the build wrote.
 */
module Pipeline {
  import opened Wrappers
  import opened Vectors
  import opened Embedder
  import opened TextCompositor
  import opened Fusion
  import opened IndexBuilder
  import opened Retriever

  /** Every cell holds text: nothing for fillna to replace. */
  predicate NoMissing(row: Row) {
    forall c :: c in row ==> row[c].Value?
  }

  /** fillna("") leaves a row without missing cells as it is. */
  lemma FillRowKeeps(row: Row)
    requires NoMissing(row)
    ensures FillRow(row) == row
  {
    assert forall c :: c in FillRow(row) ==> FillRow(row)[c] == row[c];
  }

  /** A metadata row holds text in every cell once its source row was filled. */
  lemma MetaRowFilled(row: Row, metaColumns: seq<string>, titleColumn: string)
    requires TITLE !in metaColumns && NoMissing(row)
    ensures NoMissing(MetaRow(row, metaColumns, titleColumn))
  {
  }

  /** Filling row i of the built metadata again changes nothing. */
  lemma MetaRowReloads(csv: Table, i: nat)
    requires i < |csv.rows|
    ensures FillRow(MetaRows(FillNa(csv))[i]) == MetaRows(FillNa(csv))[i]
  {
    var row, metaColumns, t := FillRow(csv.rows[i]), Present(META_CANDIDATES, csv.columns), TitleColumn(csv.columns);
    assert MetaRows(FillNa(csv))[i] == MetaRow(row, metaColumns, t);
    MetaRowFilled(row, metaColumns, t);
    FillRowKeeps(MetaRow(row, metaColumns, t));
  }

  /** Reading the built meta.csv back with fillna("") gives the rows the build wrote. */
  lemma MetaReloads(csv: Table)
    ensures FillRows(MetaRows(FillNa(csv))) == MetaRows(FillNa(csv))
  {
    var meta := MetaRows(FillNa(csv));
    forall i | 0 <= i < |meta| ensures FillRows(meta)[i] == meta[i] {
      MetaRowReloads(csv, i);
    }
  }

  /**
   * Build the artifacts into a directory that may hold those of an earlier build, then open the
   * directory as the retriever does. A successful build overwrites both files; a failed one stops
   * before writing either, so the retriever sees whatever the directory held before.
   */
  method BuildThenOpen(csvExists: bool, csv: Table, model: Model, dim: nat, sqrt: real -> real,
                       prevIndex: Option<seq<Vector>>, prevMeta: Option<seq<Row>>)
    returns (built: Result<Artifacts, BuildError>, loaded: Result<SceneRetriever, LoadError>)
    requires Embeds(model, dim) && IsSqrt(sqrt)
    ensures built.Success? ==>
      && loaded.Success?
      && loaded.value.Valid()
      && loaded.value.index == built.value.index
      && loaded.value.meta == built.value.meta
      && |loaded.value.meta| == |csv.rows|
    ensures built.Failure? ==>
      && (prevIndex.None? ==> loaded == Failure(IndexMissing))
      && (prevIndex.Some? && prevMeta.None? ==> loaded == Failure(MetaMissing))
      && (loaded.Success? <==>
            prevIndex.Some? && prevMeta.Some? && |prevIndex.value| == |prevMeta.value|)
      && (loaded.Success? ==>
            loaded.value.index == prevIndex.value && loaded.value.meta == FillRows(prevMeta.value))
  {
    built := BuildArtifacts(csvExists, csv, model, dim, sqrt);
    if built.Failure? {
      // the build raised before writing faiss.index or meta.csv
      loaded := Open(model, prevIndex, prevMeta);
      return;
    }
    MetaReloads(csv);
    loaded := Open(model, Some(built.value.index), Some(built.value.meta));
  }
}

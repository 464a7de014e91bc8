/**
 * build_embeddings of app/build_index.py: per shot, the masked weighted sum of the video and
 * dialogue embeddings, the shot-id fallback for rows that come out zero, and the final
 * L2 normalisation. float32 arithmetic is modelled on the reals.
 */
module Fusion {
  import opened Text
  import opened Vectors
  import opened Embedder
  import opened TextCompositor

  const W_VIDEO: real := 0.6
  const W_DIALOGUE: real := 0.4
  const EMPTY_SCENE: string := "(empty scene)"

  /** The mask of build_embeddings: 1 for a text with content, 0 for a blank one. */
  function Mask(text: string): real {
    if Strip(text) != "" then 1.0 else 0.0
  }

  /** The weighted sum of the masked video and dialogue embeddings of one shot. */
  function Fused(model: Model, dim: nat, video: string, dialogue: string): (r: Vector)
    requires Embeds(model, dim)
    ensures |r| == dim
  {
    Add(Scale(W_VIDEO, Scale(Mask(video), EncodePassage(model, video))),
        Scale(W_DIALOGUE, Scale(Mask(dialogue), EncodePassage(model, dialogue))))
  }

  /** The text embedded for a shot whose fused row is zero: its stripped shot id, or a placeholder. */
  function FallbackText(row: Row): (r: string)
    ensures r != ""
  {
    var sid := Strip(CellString(row, "shot_id"));
    if sid != "" then sid else EMPTY_SCENE
  }

  /** The fallback text is never empty and is the shot id itself unless that is blank. */
  lemma FallbackTextShape(row: Row)
    ensures FallbackText(row) != "" && IsTrimmed(FallbackText(row))
    ensures !IsBlank(CellString(row, "shot_id")) ==> FallbackText(row) == Strip(CellString(row, "shot_id"))
    ensures IsBlank(CellString(row, "shot_id")) ==> FallbackText(row) == EMPTY_SCENE
  {
    StripShape(CellString(row, "shot_id"));
  }

  /** The divisor of the final normalisation: the L2 norm, with 0 replaced by 1. */
  function NormOrOne(sqrt: real -> real, v: Vector): (d: real)
    requires IsSqrt(sqrt)
    ensures d != 0.0
    ensures IsZero(v) ==> d == 1.0
    ensures !IsZero(v) ==> d > 0.0 && Sq(d) == NormSq(v)
  {
    ZeroIffNormSqZero(v);
    if IsZero(v) then 1.0 else sqrt(NormSq(v))
  }

  /** out / norms for one row. */
  function Normalized(sqrt: real -> real, v: Vector): (r: Vector)
    requires IsSqrt(sqrt)
    ensures |r| == |v|
  {
    Divide(v, NormOrOne(sqrt, v))
  }

  /** np.where(np.linalg.norm(out, axis=1) == 0)[0]: the indices of the zero rows, ascending. */
  function ZeroRows(rows: seq<Vector>): (z: seq<nat>)
    ensures forall j :: 0 <= j < |z| ==> z[j] < |rows|
    ensures forall j :: 0 <= j < |z| ==> IsZero(rows[z[j]])
    ensures forall j, k :: 0 <= j < k < |z| ==> z[j] < z[k]
  {
    if rows == [] then []
    else
      var n := |rows| - 1;
      ZeroRows(rows[..n]) + (if IsZero(rows[n]) then [n] else [])
  }

  /** Every zero row is listed by ZeroRows, and only zero rows are: i is listed iff rows[i] is zero. */
  lemma {:induction false} ZeroRowsComplete(rows: seq<Vector>, i: nat) returns (j: nat)
    requires i < |rows|
    ensures IsZero(rows[i]) ==> j < |ZeroRows(rows)| && ZeroRows(rows)[j] == i
    ensures i in ZeroRows(rows) <==> IsZero(rows[i])
  {
    var n := |rows| - 1;
    var z := ZeroRows(rows[..n]);
    if i < n {
      j := ZeroRowsComplete(rows[..n], i);
      assert ZeroRows(rows)[..|z|] == z;
    } else {
      j := |z|;
    }
  }

  /** The composite texts of a shot. */
  function VideoText(row: Row): string {
    Joined(row, VIDEO_FIELDS)
  }

  function DialogueText(row: Row): string {
    Joined(row, DIALOGUE_FIELDS)
  }

  /** A shot's row before normalisation: the fused row, or the fallback embedding if that is zero. */
  function Resolved(model: Model, dim: nat, row: Row): (r: Vector)
    requires Embeds(model, dim)
    ensures |r| == dim
  {
    var f := Fused(model, dim, VideoText(row), DialogueText(row));
    if IsZero(f) then EncodePassage(model, FallbackText(row)) else f
  }

  /** The row build_embeddings returns for one shot. */
  function ShotVector(model: Model, dim: nat, sqrt: real -> real, row: Row): (r: Vector)
    requires Embeds(model, dim) && IsSqrt(sqrt)
    ensures |r| == dim
  {
    Normalized(sqrt, Resolved(model, dim, row))
  }

  /** The video texts of all shots, in row order. */
  function VideoTexts(rows: seq<Row>): (ts: seq<string>)
    ensures |ts| == |rows|
  {
    if rows == [] then [] else VideoTexts(rows[..|rows| - 1]) + [VideoText(rows[|rows| - 1])]
  }

  /** The dialogue texts of all shots, in row order. */
  function DialogueTexts(rows: seq<Row>): (ts: seq<string>)
    ensures |ts| == |rows|
  {
    if rows == [] then [] else DialogueTexts(rows[..|rows| - 1]) + [DialogueText(rows[|rows| - 1])]
  }

  lemma {:induction false} TextsAt(rows: seq<Row>, k: nat)
    requires k < |rows|
    ensures VideoTexts(rows)[k] == VideoText(rows[k])
    ensures DialogueTexts(rows)[k] == DialogueText(rows[k])
  {
    if k < |rows| - 1 {
      TextsAt(rows[..|rows| - 1], k);
    }
  }

  /** The fallback texts of the listed rows, in list order. */
  function FallbackTextsOf(rows: seq<Row>, picked: seq<nat>): (ts: seq<string>)
    requires forall j :: 0 <= j < |picked| ==> picked[j] < |rows|
    ensures |ts| == |picked|
  {
    if picked == [] then []
    else FallbackTextsOf(rows, picked[..|picked| - 1]) + [FallbackText(rows[picked[|picked| - 1]])]
  }

  lemma {:induction false} FallbackTextsAt(rows: seq<Row>, picked: seq<nat>, j: nat)
    requires forall j :: 0 <= j < |picked| ==> picked[j] < |rows|
    requires j < |picked|
    ensures FallbackTextsOf(rows, picked)[j] == FallbackText(rows[picked[j]])
  {
    if j < |picked| - 1 {
      FallbackTextsAt(rows, picked[..|picked| - 1], j);
    }
  }

  /** The loop of build_embeddings that composes the two texts of every shot. */
  method SemanticTexts(rows: seq<Row>) returns (videoTexts: seq<string>, dialogueTexts: seq<string>)
    ensures videoTexts == VideoTexts(rows) && dialogueTexts == DialogueTexts(rows)
  {
    videoTexts, dialogueTexts := [], [];
    for i := 0 to |rows|
      invariant videoTexts == VideoTexts(rows[..i])
      invariant dialogueTexts == DialogueTexts(rows[..i])
    {
      assert rows[..i + 1][..i] == rows[..i];
      var v, d := BuildSemanticTexts(rows[i]);
      videoTexts := videoTexts + [v];
      dialogueTexts := dialogueTexts + [d];
    }
    assert rows[..|rows|] == rows;
  }

  /** The loop of build_embeddings that picks the fallback text of every zero row. */
  method FallbackTexts(rows: seq<Row>, zeroRows: seq<nat>) returns (texts: seq<string>)
    requires forall j :: 0 <= j < |zeroRows| ==> zeroRows[j] < |rows|
    ensures texts == FallbackTextsOf(rows, zeroRows)
  {
    texts := [];
    for j := 0 to |zeroRows|
      invariant texts == FallbackTextsOf(rows, zeroRows[..j])
    {
      assert zeroRows[..j + 1][..j] == zeroRows[..j];
      var sid := Strip(CellString(rows[zeroRows[j]], "shot_id"));
      texts := texts + [if sid != "" then sid else EMPTY_SCENE];
    }
    assert zeroRows[..|zeroRows|] == zeroRows;
  }

  /** The fused rows of all shots, from their texts. */
  function FusedRows(model: Model, dim: nat, videoTexts: seq<string>, dialogueTexts: seq<string>): (rows: seq<Vector>)
    requires Embeds(model, dim) && |videoTexts| == |dialogueTexts|
    ensures |rows| == |videoTexts|
  {
    if videoTexts == [] then []
    else
      var n := |videoTexts| - 1;
      FusedRows(model, dim, videoTexts[..n], dialogueTexts[..n]) + [Fused(model, dim, videoTexts[n], dialogueTexts[n])]
  }

  lemma {:induction false} FusedRowsAt(model: Model, dim: nat, videoTexts: seq<string>, dialogueTexts: seq<string>, i: nat)
    requires Embeds(model, dim) && |videoTexts| == |dialogueTexts| && i < |videoTexts|
    ensures FusedRows(model, dim, videoTexts, dialogueTexts)[i] == Fused(model, dim, videoTexts[i], dialogueTexts[i])
  {
    var n := |videoTexts| - 1;
    if i < n {
      FusedRowsAt(model, dim, videoTexts[..n], dialogueTexts[..n], i);
    }
  }

  /** The masked weighted sum of build_embeddings, one row per shot. */
  method FuseRows(model: Model, dim: nat, videoTexts: seq<string>, dialogueTexts: seq<string>,
                  videoEmbs: seq<Vector>, dialogueEmbs: seq<Vector>)
    returns (out: array<Vector>)
    requires Embeds(model, dim) && |videoTexts| == |dialogueTexts|
    requires videoEmbs == EncodedPassages(model, videoTexts)
    requires dialogueEmbs == EncodedPassages(model, dialogueTexts)
    ensures fresh(out)
    ensures out[..] == FusedRows(model, dim, videoTexts, dialogueTexts)
  {
    var n := |videoTexts|;
    forall i | 0 <= i < n
      ensures |videoEmbs[i]| == |dialogueEmbs[i]| == dim
      ensures Add(Scale(W_VIDEO, Scale(Mask(videoTexts[i]), videoEmbs[i])),
                  Scale(W_DIALOGUE, Scale(Mask(dialogueTexts[i]), dialogueEmbs[i])))
        == FusedRows(model, dim, videoTexts, dialogueTexts)[i]
    {
      PassagesAt(model, videoTexts, i);
      PassagesAt(model, dialogueTexts, i);
      FusedRowsAt(model, dim, videoTexts, dialogueTexts, i);
    }
    out := new Vector[n](i requires 0 <= i < n =>
      Add(Scale(W_VIDEO, Scale(Mask(videoTexts[i]), videoEmbs[i])),
          Scale(W_DIALOGUE, Scale(Mask(dialogueTexts[i]), dialogueEmbs[i]))));
  }

  /** out[zero_rows] = fallback_embs: row zeroRows[j] becomes fallbackEmbs[j], the others stay. */
  method ReplaceRows(out: array<Vector>, zeroRows: seq<nat>, fallbackEmbs: seq<Vector>)
    requires |fallbackEmbs| == |zeroRows|
    requires forall j :: 0 <= j < |zeroRows| ==> zeroRows[j] < out.Length
    requires forall j, k :: 0 <= j < k < |zeroRows| ==> zeroRows[j] < zeroRows[k]
    modifies out
    ensures forall j :: 0 <= j < |zeroRows| ==> out[zeroRows[j]] == fallbackEmbs[j]
    ensures forall i :: 0 <= i < out.Length && i !in zeroRows ==> out[i] == old(out[i])
  {
    forall j | 0 <= j < |zeroRows| {
      out[zeroRows[j]] := fallbackEmbs[j];
    }
  }

  /** The fused row of shot i, from its own two composite texts. */
  lemma FusedAt(model: Model, dim: nat, rows: seq<Row>, i: nat)
    requires Embeds(model, dim) && i < |rows|
    ensures FusedRows(model, dim, VideoTexts(rows), DialogueTexts(rows))[i]
      == Fused(model, dim, VideoText(rows[i]), DialogueText(rows[i]))
  {
    TextsAt(rows, i);
    FusedRowsAt(model, dim, VideoTexts(rows), DialogueTexts(rows), i);
  }

  /** The fallback embedding of the j-th listed row is the embedding of that row's fallback text. */
  lemma FallbackEmbAt(model: Model, rows: seq<Row>, picked: seq<nat>, j: nat)
    requires forall j :: 0 <= j < |picked| ==> picked[j] < |rows|
    requires j < |picked|
    ensures EncodedPassages(model, FallbackTextsOf(rows, picked))[j] == EncodePassage(model, FallbackText(rows[picked[j]]))
  {
    FallbackTextsAt(rows, picked, j);
    PassagesAt(model, FallbackTextsOf(rows, picked), j);
  }

  /** One assembled row is the shot's resolved row: fused, or its fallback embedding when fused is zero. */
  lemma AssembledRowAt(model: Model, dim: nat, rows: seq<Row>, fused: seq<Vector>, zeroRows: seq<nat>,
                       fallbackEmbs: seq<Vector>, i: nat, row: Vector)
    requires Embeds(model, dim) && i < |rows|
    requires fused == FusedRows(model, dim, VideoTexts(rows), DialogueTexts(rows))
    requires zeroRows == ZeroRows(fused)
    requires fallbackEmbs == EncodedPassages(model, FallbackTextsOf(rows, zeroRows))
    requires i !in zeroRows ==> row == fused[i]
    requires forall j :: 0 <= j < |zeroRows| && zeroRows[j] == i ==> row == fallbackEmbs[j]
    ensures row == Resolved(model, dim, rows[i])
  {
    FusedAt(model, dim, rows, i);
    var j := ZeroRowsComplete(fused, i);
    if IsZero(fused[i]) {
      FallbackEmbAt(model, rows, zeroRows, j);
    }
  }

  /** The second half of build_embeddings: every zero row of out is replaced by its fallback embedding. */
  method ResolveZeroRows(model: Model, dim: nat, rows: seq<Row>, out: array<Vector>)
    requires Embeds(model, dim) && out.Length == |rows|
    requires out[..] == FusedRows(model, dim, VideoTexts(rows), DialogueTexts(rows))
    modifies out
    ensures forall i :: 0 <= i < |rows| ==> out[i] == Resolved(model, dim, rows[i])
  {
    ghost var fused := out[..];
    var zeroRows := ZeroRows(out[..]);
    var fallbackTexts := FallbackTexts(rows, zeroRows);
    var fallbackEmbs := EncodePassages(model, fallbackTexts);
    ReplaceRows(out, zeroRows, fallbackEmbs);
    forall i | 0 <= i < |rows|
      ensures out[i] == Resolved(model, dim, rows[i])
    {
      AssembledRowAt(model, dim, rows, fused, zeroRows, fallbackEmbs, i, out[i]);
    }
  }

  /** build_embeddings: one row of dim components per shot, each the shot's ShotVector. */
  method BuildEmbeddings(rows: seq<Row>, model: Model, dim: nat, sqrt: real -> real)
    returns (embs: seq<Vector>)
    requires Embeds(model, dim) && IsSqrt(sqrt)
    ensures |embs| == |rows|
    ensures forall i :: 0 <= i < |rows| ==> embs[i] == ShotVector(model, dim, sqrt, rows[i])
  {
    var videoTexts, dialogueTexts := SemanticTexts(rows);
    var videoEmbs := EncodePassages(model, videoTexts);
    var dialogueEmbs := EncodePassages(model, dialogueTexts);
    var out := FuseRows(model, dim, videoTexts, dialogueTexts, videoEmbs, dialogueEmbs);
    // rows that came out zero take the embedding of their fallback text
    ResolveZeroRows(model, dim, rows, out);
    // final L2 normalisation
    var resolved := out[..];
    embs := seq(|rows|, i requires 0 <= i < |rows| => Normalized(sqrt, resolved[i]));
  }

  /**
   * With normalised model outputs, a shot's fused row is zero exactly when both its
   * composite texts are blank: only then does the shot-id fallback apply.
   */
  lemma FusedZeroIffBlank(model: Model, dim: nat, video: string, dialogue: string)
    requires UnitModel(model, dim)
    ensures Embeds(model, dim)
    ensures IsZero(Fused(model, dim, video, dialogue)) <==> IsBlank(video) && IsBlank(dialogue)
  {
    var a, b := EncodePassage(model, video), EncodePassage(model, dialogue);
    var f := Fused(model, dim, video, dialogue);
    var mv, md := Mask(video), Mask(dialogue);
    StripShape(video);
    StripShape(dialogue);
    assert forall i :: 0 <= i < dim ==> f[i] == W_VIDEO * (mv * a[i]) + W_DIALOGUE * (md * b[i]);
    if !IsBlank(video) && !IsBlank(dialogue) {
      // 0.6 a + 0.4 b == 0 would make a == -2/3 b, whose squared norm is 4/9, not 1
      NormSqScale(-2.0 / 3.0, b);
      assert a != Scale(-2.0 / 3.0, b);
      var i :| 0 <= i < dim && a[i] != Scale(-2.0 / 3.0, b)[i];
      assert f[i] != 0.0;
    } else if !IsBlank(video) {
      ZeroIffNormSqZero(a);
      var i :| 0 <= i < dim && a[i] != 0.0;
      assert f[i] != 0.0;
    } else if !IsBlank(dialogue) {
      ZeroIffNormSqZero(b);
      var i :| 0 <= i < dim && b[i] != 0.0;
      assert f[i] != 0.0;
    }
  }

  /** Normalising c * v, for a unit vector v and c > 0, gives back v. */
  lemma NormalizedScaledUnit(sqrt: real -> real, c: real, v: Vector)
    requires IsSqrt(sqrt) && c > 0.0 && IsUnit(v)
    ensures Normalized(sqrt, Scale(c, v)) == v
  {
    var w := Scale(c, v);
    ScaledUnitNorm(c, v);
    SqrtUnique(sqrt, c);
    assert NormOrOne(sqrt, w) == c;
    DivideScaled(c, v);
  }

  /** Normalising a unit vector leaves it unchanged. */
  lemma NormalizedOfUnit(sqrt: real -> real, v: Vector)
    requires IsSqrt(sqrt) && IsUnit(v)
    ensures Normalized(sqrt, v) == v
  {
    assert Scale(1.0, v) == v;
    NormalizedScaledUnit(sqrt, 1.0, v);
  }

  /** A non-zero row comes out of the normalisation as a unit vector. */
  lemma NormalizedUnit(sqrt: real -> real, v: Vector)
    requires IsSqrt(sqrt) && !IsZero(v)
    ensures IsUnit(Normalized(sqrt, v))
  {
    DivideByNorm(v, NormOrOne(sqrt, v));
  }

  /** With normalised model outputs no resolved row is zero: the fallback row is itself a unit vector. */
  lemma ResolvedNotZero(model: Model, dim: nat, row: Row)
    requires UnitModel(model, dim)
    ensures Embeds(model, dim)
    ensures !IsZero(Resolved(model, dim, row))
  {
    if IsZero(Fused(model, dim, VideoText(row), DialogueText(row))) {
      UnitNotZero(EncodePassage(model, FallbackText(row)));
    }
  }

  /** Every row build_embeddings returns is a unit vector, so inner product is cosine similarity. */
  lemma ShotVectorUnit(model: Model, dim: nat, sqrt: real -> real, row: Row)
    requires UnitModel(model, dim) && IsSqrt(sqrt)
    ensures Embeds(model, dim)
    ensures IsUnit(ShotVector(model, dim, sqrt, row))
  {
    ResolvedNotZero(model, dim, row);
    NormalizedUnit(sqrt, Resolved(model, dim, row));
  }

  /** A shot whose composite texts are both blank is the embedding of its fallback text. */
  lemma BlankShotVector(model: Model, dim: nat, sqrt: real -> real, row: Row)
    requires UnitModel(model, dim) && IsSqrt(sqrt)
    requires IsBlank(VideoText(row)) && IsBlank(DialogueText(row))
    ensures Embeds(model, dim)
    ensures ShotVector(model, dim, sqrt, row) == EncodePassage(model, FallbackText(row))
  {
    FusedZeroIffBlank(model, dim, VideoText(row), DialogueText(row));
    NormalizedOfUnit(sqrt, EncodePassage(model, FallbackText(row)));
  }

  /** A shot with video text only is its video embedding: the 0.6 weight is normalised away. */
  lemma VideoOnlyShotVector(model: Model, dim: nat, sqrt: real -> real, row: Row)
    requires UnitModel(model, dim) && IsSqrt(sqrt)
    requires !IsBlank(VideoText(row)) && IsBlank(DialogueText(row))
    ensures Embeds(model, dim)
    ensures ShotVector(model, dim, sqrt, row) == EncodePassage(model, VideoText(row))
  {
    var a := EncodePassage(model, VideoText(row));
    var f := Fused(model, dim, VideoText(row), DialogueText(row));
    StripShape(VideoText(row));
    StripShape(DialogueText(row));
    forall i | 0 <= i < dim
      ensures f[i] == Scale(W_VIDEO, a)[i]
    {
    }
    assert f == Scale(W_VIDEO, a);
    FusedZeroIffBlank(model, dim, VideoText(row), DialogueText(row));
    NormalizedScaledUnit(sqrt, W_VIDEO, a);
  }

  /** A shot with dialogue text only is its dialogue embedding: the 0.4 weight is normalised away. */
  lemma DialogueOnlyShotVector(model: Model, dim: nat, sqrt: real -> real, row: Row)
    requires UnitModel(model, dim) && IsSqrt(sqrt)
    requires IsBlank(VideoText(row)) && !IsBlank(DialogueText(row))
    ensures Embeds(model, dim)
    ensures ShotVector(model, dim, sqrt, row) == EncodePassage(model, DialogueText(row))
  {
    var b := EncodePassage(model, DialogueText(row));
    var f := Fused(model, dim, VideoText(row), DialogueText(row));
    StripShape(VideoText(row));
    StripShape(DialogueText(row));
    forall i | 0 <= i < dim
      ensures f[i] == Scale(W_DIALOGUE, b)[i]
    {
    }
    assert f == Scale(W_DIALOGUE, b);
    FusedZeroIffBlank(model, dim, VideoText(row), DialogueText(row));
    NormalizedScaledUnit(sqrt, W_DIALOGUE, b);
  }

  /** A blank text is masked out, so what the model returns for the "" placeholder never matters. */
  lemma MaskedIgnoresEmpty(m1: Model, m2: Model, dim: nat, text: string)
    requires Embeds(m1, dim) && Embeds(m2, dim)
    requires forall s :: s != "" ==> m1(s) == m2(s)
    ensures Scale(Mask(text), EncodePassage(m1, text)) == Scale(Mask(text), EncodePassage(m2, text))
  {
    PassageTextShape(text);
    StripShape(text);
  }

  /** The fallback text is never blank, so its embedding does not depend on the "" placeholder. */
  lemma FallbackIgnoresEmpty(m1: Model, m2: Model, row: Row)
    requires forall s :: s != "" ==> m1(s) == m2(s)
    ensures EncodePassage(m1, FallbackText(row)) == EncodePassage(m2, FallbackText(row))
  {
    var fb := FallbackText(row);
    FallbackTextShape(row);
    PassageTextShape(fb);
    assert !IsSpace(fb[0]);
  }

  /**
   * The placeholder embedding of blank passages never reaches a shot's row: two models that
   * agree on every non-empty input give every shot the same row.
   */
  lemma EmptyPlaceholderIgnored(m1: Model, m2: Model, dim: nat, sqrt: real -> real, row: Row)
    requires Embeds(m1, dim) && Embeds(m2, dim) && IsSqrt(sqrt)
    requires forall s :: s != "" ==> m1(s) == m2(s)
    ensures ShotVector(m1, dim, sqrt, row) == ShotVector(m2, dim, sqrt, row)
  {
    MaskedIgnoresEmpty(m1, m2, dim, VideoText(row));
    MaskedIgnoresEmpty(m1, m2, dim, DialogueText(row));
    assert Fused(m1, dim, VideoText(row), DialogueText(row)) == Fused(m2, dim, VideoText(row), DialogueText(row));
    FallbackIgnoresEmpty(m1, m2, row);
    assert Resolved(m1, dim, row) == Resolved(m2, dim, row);
  }
}

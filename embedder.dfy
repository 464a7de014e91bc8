/**
 * Input framing of the E5 embedder (app/embedder.py). The sentence-embedding model
 * itself is a function parameter: only the text handed to it is modelled here.
 */
module Embedder {
  import opened Wrappers
  import opened Text
  import opened Vectors

  /** The sentence-embedding model: one vector per input text. */
  type Model = string -> Vector

  const QUERY_PREFIX: string := "query: "
  const PASSAGE_PREFIX: string := "passage: "
  const EMPTY_QUERY: string := "(empty query)"

  /** Every output of the model has dim components (the model's embedding dimension). */
  ghost predicate Embeds(model: Model, dim: nat) {
    forall s :: |model(s)| == dim
  }

  /** Embeddings are requested with normalize_embeddings=True: every output is a unit vector. */
  ghost predicate UnitModel(model: Model, dim: nat) {
    forall s :: |model(s)| == dim && IsUnit(model(s))
  }

  /** The text encode_query hands to the model: "query: " and the stripped query or a placeholder. */
  function QueryText(text: Option<string>): (r: string)
    ensures |r| > |QUERY_PREFIX|
  {
    var t := Strip(if text.Some? then text.value else "");
    QUERY_PREFIX + (if t == "" then EMPTY_QUERY else t)
  }

  /**
   * encode_query never hands the model an empty query: the text after the prefix is the
   * stripped query when it has content, and the placeholder when it is missing or blank.
   */
  lemma QueryTextShape(text: Option<string>)
    ensures |QueryText(text)| > |QUERY_PREFIX|
    ensures QueryText(text)[..|QUERY_PREFIX|] == QUERY_PREFIX
    ensures IsTrimmed(QueryText(text)[|QUERY_PREFIX|..])
    ensures text.Some? && !IsBlank(text.value) ==> QueryText(text) == QUERY_PREFIX + Strip(text.value)
    ensures text.None? || IsBlank(text.value) ==> QueryText(text) == QUERY_PREFIX + EMPTY_QUERY
  {
    var raw := if text.Some? then text.value else "";
    StripShape(raw);
    var r := QueryText(text);
    assert r[|QUERY_PREFIX|..] == if Strip(raw) == "" then EMPTY_QUERY else Strip(raw);
  }

  /** The text encode_passages hands to the model for one passage: "" for a blank one. */
  function PassageText(text: string): string {
    var t := Strip(text);
    if t == "" then "" else PASSAGE_PREFIX + t
  }

  /** A passage is sent empty exactly when it is blank; otherwise it is "passage: " and its stripped text. */
  lemma PassageTextShape(text: string)
    ensures PassageText(text) == "" <==> IsBlank(text)
    ensures !IsBlank(text) ==> PassageText(text) == PASSAGE_PREFIX + Strip(text) && Strip(text) != ""
    ensures !IsBlank(text) ==> IsTrimmed(PassageText(text)[|PASSAGE_PREFIX|..])
  {
    StripShape(text);
    if !IsBlank(text) {
      assert PassageText(text)[|PASSAGE_PREFIX|..] == Strip(text);
    }
  }

  /** The embedding encode_passages returns for one passage. */
  function EncodePassage(model: Model, text: string): Vector {
    model(PassageText(text))
  }

  /** The texts encode_passages hands to the model, in input order. */
  function PassageTexts(texts: seq<string>): (safe: seq<string>)
    ensures |safe| == |texts|
  {
    if texts == [] then [] else PassageTexts(texts[..|texts| - 1]) + [PassageText(texts[|texts| - 1])]
  }

  /** The embeddings encode_passages returns, in input order. */
  function EncodedPassages(model: Model, texts: seq<string>): (embs: seq<Vector>)
    ensures |embs| == |texts|
  {
    if texts == [] then [] else EncodedPassages(model, texts[..|texts| - 1]) + [EncodePassage(model, texts[|texts| - 1])]
  }

  /** Passage i is framed and embedded on its own: the batch keeps order and length. */
  lemma {:induction false} PassagesAt(model: Model, texts: seq<string>, i: nat)
    requires i < |texts|
    ensures PassageTexts(texts)[i] == PassageText(texts[i])
    ensures EncodedPassages(model, texts)[i] == EncodePassage(model, texts[i])
  {
    if i < |texts| - 1 {
      PassagesAt(model, texts[..|texts| - 1], i);
    }
  }

  /** The loop of encode_passages that frames every passage, in order. */
  method FramePassages(texts: seq<string>) returns (safe: seq<string>)
    ensures safe == PassageTexts(texts)
  {
    safe := [];
    for i := 0 to |texts|
      invariant safe == PassageTexts(texts[..i])
    {
      assert texts[..i + 1][..i] == texts[..i];
      var t := Strip(texts[i]);
      if t == "" {
        safe := safe + [""];
      } else {
        safe := safe + [PASSAGE_PREFIX + t];
      }
    }
    assert texts[..|texts|] == texts;
  }

  /** encode_passages: one embedding per input text, in input order. */
  method EncodePassages(model: Model, texts: seq<string>) returns (embs: seq<Vector>)
    ensures embs == EncodedPassages(model, texts)
  {
    var safe := FramePassages(texts);
    embs := seq(|safe|, i requires 0 <= i < |safe| => model(safe[i]));
    forall i | 0 <= i < |texts|
      ensures embs[i] == EncodedPassages(model, texts)[i]
    {
      PassagesAt(model, texts, i);
    }
  }

  /** Query framing and passage framing never produce the same model input. */
  lemma FramingsDiffer(query: Option<string>, passage: string)
    ensures QueryText(query) != PassageText(passage)
  {
    QueryTextShape(query);
    var q, p := QueryText(query), PassageText(passage);
    if p != "" {
      assert q[0] == 'q' && p[0] == 'p';
    }
  }

  /** Framing is insensitive to surrounding whitespace: a stripped passage is framed the same way. */
  lemma {:induction false} PassageTextStripped(text: string)
    ensures PassageText(Strip(text)) == PassageText(text)
  {
    StripShape(text);
    StripShape(Strip(text));
  }
}

# Scene search: a verified model of the retrieval pipeline

This project models the retrieval core of a scene-search system in Dafny. An offline build
(`app/build_index.py`) turns a CSV of video shots into one embedding per shot and a metadata
table. A retriever (`app/retriever.py`) answers text queries against those artifacts. The
browser removes repeated hits (`static/app.js`). The model covers each stage:

- `text.dfy`: Python's `str.strip` over the full `str.isspace` set.
- `compositor.dfy`: `join_fields` and `build_semantic_texts`, which build a shot's "video" and
  "dialogue" texts.
- `embedder.py` framing (`embedder.dfy`): the `"query: "` / `"passage: "` prefixes and the handling
  of blank input. The sentence-embedding model is a function parameter.
- `fusion.dfy`: `build_embeddings`. It masks empty groups, weights video by 0.6 and dialogue by
  0.4, replaces all-zero rows with a fallback embedding, and normalises each row. Vectors are
  sequences of `real`. Square root is a parameter constrained by `IsSqrt`.
- `index_builder.dfy`: the artifact rules of `main`. The CSV must exist and hold the required
  columns, the index gets one row per shot, and the metadata keeps the present columns of a fixed
  list plus a title.
- `timeparse.dfy`: `time_to_seconds`. It reads H:MM:SS, MM:SS, plain decimals and a
  first-number fallback. The `ValueError` of `float()` on a bad colon segment is a `Failure`.
- `retriever.dfy`: the class `SceneRetriever`, its loading checks, and `search`. Search clamps
  `top_k`, skips the -1 sentinel, applies the 0.842 threshold, renumbers ranks and builds hits
  from metadata rows. The FAISS search is a function parameter constrained by `KnnContract`.
- `dedupe.dfy`: `dedupeResults`, which keeps the first result for each key.
- `pipeline.dfy`: what the build writes is what the retriever loads.
- `wrappers.dfy`, `vectors.dfy`, `sequences.dfy`: `Option`/`Result`, real vector algebra, and
  order-preserving subsequences.

Imperative source keeps its imperative form:

- The loops of `join_fields`, `encode_passages`, `build_embeddings`, `search` and
  `dedupeResults` are methods with loop invariants. Each is proved equal to a specification
  function, and the lemmas about that function state what the source promises.
- The in-place overwrite `out[zero_rows] = fallback_embs` works on an `array`.
- `SceneRetriever` is a class whose `index` and `meta` fields are set by its constructor.
  `Search` has no `modifies` clause, so it cannot change them.

## Model

| member | source | states |
|---|---|---|
| Text.Strip | app/build_index.py:35 | str.strip(), as join_fields, encode_query, encode_passages, search and time_to_seconds apply it; the result is never longer than the input, and StripShape and StripRemovesOnlyEnds state what it removes |
| Text.StripShape | app/embedder.py:17 | stripping leaves no whitespace at either end, is empty exactly for all-whitespace input, and leaves a stripped string unchanged |
| Text.StripRemovesOnlyEnds | app/embedder.py:17 | the input is the stripped text with whitespace-only strings before and after it |
| Text.JoinTrimmed | app/build_index.py:38 | joining non-empty stripped words with single spaces gives a stripped string, empty exactly when there are no words |
| TextCompositor.Values | app/build_index.py:30-37 | at most one value is collected per listed field |
| TextCompositor.ValuesTrimmed | app/build_index.py:32-37 | every collected value is non-empty and has no surrounding whitespace, with missing and NaN fields read as "" |
| TextCompositor.ValuesEmptyIff | app/build_index.py:35-37 | nothing is collected exactly when every listed field is blank |
| TextCompositor.Joined | app/build_index.py:30-38 | the value join_fields returns: the non-blank stripped values joined by single spaces; it is always stripped, and JoinedShape adds when it is "" |
| TextCompositor.JoinedShape | app/build_index.py:38 | the joined text is stripped, and is "" exactly when every listed field is blank |
| TextCompositor.JoinFields | app/build_index.py:29-38 | the loop returns the single-space join of the non-blank stripped field values in list order; the result is stripped and is "" iff all fields are blank |
| TextCompositor.BuildSemanticTexts | app/build_index.py:41-44 | the video text joins VIDEO_FIELDS and the dialogue text joins DIALOGUE_FIELDS |
| Embedder.QueryText | app/embedder.py:17-22 | the text encode_query sends: "query: " plus the stripped query, or "(empty query)"; it is always longer than the prefix, so the model never receives a bare prefix (QueryTextShape gives its exact content) |
| Embedder.QueryTextShape | app/embedder.py:16-24 | the model input is always "query: " followed by non-empty stripped content: the stripped query, or "(empty query)" when it is missing or blank |
| Embedder.PassageText | app/embedder.py:30-35 | the text encode_passages sends for one passage: "" for a blank passage, else "passage: " plus the stripped text; PassageTextShape states both cases |
| Embedder.PassageTextShape | app/embedder.py:30-35 | a blank passage becomes "" with no prefix; any other passage becomes "passage: " plus the stripped text |
| Embedder.PassageTextStripped | app/embedder.py:30 | passage framing ignores surrounding whitespace |
| Embedder.FramingsDiffer | app/embedder.py:22 | a query framing is never equal to a passage framing |
| Embedder.PassageTexts | app/embedder.py:28-35 | framing keeps the number of passages |
| Embedder.PassagesAt | app/embedder.py:28-42 | element i of the framed list and of the embeddings comes from passage i, so order is kept |
| Embedder.FramePassages | app/embedder.py:28-35 | the loop that builds `safe` yields the framed passages, one per input, in order |
| Embedder.EncodePassages | app/embedder.py:27-43 | one embedding per passage, each the model applied to that passage's framing |
| Fusion.Mask | app/build_index.py:69-73 | the mask of one composite text: 1.0 when its stripped text is non-empty, 0.0 otherwise; FusedZeroIffBlank and MaskedIgnoresEmpty state its effect on the fused row |
| Fusion.Fused | app/build_index.py:76-79 | a fused row has dim entries |
| Fusion.FusedZeroIffBlank | app/build_index.py:69-82 | with a model that returns unit vectors, a fused row is all-zero exactly when both its video and dialogue texts are blank |
| Fusion.MaskedIgnoresEmpty | app/build_index.py:69-73 | a masked embedding does not depend on what the model returns for "" |
| Fusion.SemanticTexts | app/build_index.py:55-61 | the loop collects the video and dialogue text of every row, in row order |
| Fusion.FusedRows | app/build_index.py:76-79 | there is one fused row per shot |
| Fusion.FusedAt | app/build_index.py:64-79 | fused row i is 0.6 times the masked video embedding plus 0.4 times the masked dialogue embedding of shot i |
| Fusion.FuseRows | app/build_index.py:64-79 | the array of weighted sums holds the fused row of every shot, in order |
| Fusion.ZeroRows | app/build_index.py:82 | the zero-row positions are in range, ascending, and only name all-zero rows |
| Fusion.ZeroRowsComplete | app/build_index.py:82 | a row's position is listed exactly when the row is all-zero |
| Fusion.FallbackText | app/build_index.py:86-87 | the text embedded for a zero row: the stripped shot_id, or "(empty scene)"; it is never empty (FallbackTextShape gives the two cases) |
| Fusion.FallbackTextShape | app/build_index.py:86-87 | the fallback text is the stripped shot_id, or "(empty scene)" when that is blank; it is never empty |
| Fusion.FallbackTexts | app/build_index.py:84-87 | the loop yields the fallback text of each zero row, in zero-row order |
| Fusion.FallbackIgnoresEmpty | app/build_index.py:84-88 | the fallback embedding does not depend on what the model returns for "" |
| Fusion.ReplaceRows | app/build_index.py:89 | each listed row receives its fallback embedding and no other row changes |
| Fusion.AssembledRowAt | app/build_index.py:82-89 | after replacement, row i is the fallback embedding if the fused row was zero, and the fused row otherwise |
| Fusion.ResolveZeroRows | app/build_index.py:82-89 | the in-place replacement leaves every row equal to its resolved (fused or fallback) vector |
| Fusion.Resolved | app/build_index.py:82-89 | a shot's row before normalisation: the fused row, or the embedding of its fallback text when the fused row is zero; it has dim entries (ResolvedNotZero: never zero under a unit-vector model) |
| Fusion.ResolvedNotZero | app/build_index.py:81-89 | with a unit-vector model no row is zero after the fallback |
| Fusion.NormOrOne | app/build_index.py:92-93 | the divisor is 1 for a zero row and the positive Euclidean norm otherwise |
| Fusion.Normalized | app/build_index.py:94 | normalising keeps the row length |
| Fusion.NormalizedUnit | app/build_index.py:92-94 | a nonzero row becomes a unit vector |
| Fusion.NormalizedOfUnit | app/build_index.py:92-94 | a unit row is left unchanged by normalisation |
| Fusion.NormalizedScaledUnit | app/build_index.py:92-94 | a positive multiple of a unit vector normalises back to that vector |
| Fusion.ShotVector | app/build_index.py:91-97 | each final row has dim entries |
| Fusion.ShotVectorUnit | app/build_index.py:91-97 | with a unit-vector model every final row is a unit vector |
| Fusion.BlankShotVector | app/build_index.py:81-94 | a shot whose texts are both blank gets the embedding of its fallback text |
| Fusion.VideoOnlyShotVector | app/build_index.py:69-94 | a shot with only video text gets exactly that text's embedding |
| Fusion.DialogueOnlyShotVector | app/build_index.py:69-94 | a shot with only dialogue text gets exactly that text's embedding |
| Fusion.EmptyPlaceholderIgnored | app/build_index.py:67-89 | no final row depends on what the model returns for the "" placeholder |
| Fusion.BuildEmbeddings | app/build_index.py:47-98 | there are exactly n rows, in input order, and row i is the normalised resolved vector of shot i |
| IndexBuilder.FillRow | app/build_index.py:117 | fillna keeps the columns and leaves no missing cell |
| IndexBuilder.FillNa | app/build_index.py:117 | fillna keeps the header and the row count |
| IndexBuilder.FillKeepsValues | app/build_index.py:117 | fillna does not change any composite text, since join_fields already reads NaN as "" |
| IndexBuilder.Absent | app/build_index.py:123-126 | the missing list holds exactly the required columns the CSV lacks |
| IndexBuilder.Present | app/build_index.py:147-150 | the metadata columns are exactly the candidates the CSV has |
| IndexBuilder.PresentKeepsOrder | app/build_index.py:147-150 | the selected metadata columns keep the order of [shot_id, start_time, end_time, characters] |
| IndexBuilder.MetaColumnsShape | app/build_index.py:147-162 | the metadata header is the present candidates, in candidate order, followed by title |
| IndexBuilder.TitleColumn | app/build_index.py:153-159 | the title comes from detailed_caption if present, else narrative, else shot_id; once shot_id is present it is always an existing column |
| IndexBuilder.MetaRow | app/build_index.py:161-162 | a metadata row has exactly the selected columns plus title; each selected cell is copied from the shot row, and the title is the str() text of the title column |
| IndexBuilder.MetaRows | app/build_index.py:161-162 | there is one metadata row per CSV row |
| IndexBuilder.MetaRowsAt | app/build_index.py:153-162 | metadata row i holds the selected cells of CSV row i, with a missing value written as "", and its title is the title column's text, or "" when that cell was missing |
| IndexBuilder.FilledTitle | app/build_index.py:155-159 | after fillna a title is the cell's text, or "" for a missing cell, never "nan" |
| IndexBuilder.BuildArtifacts | app/build_index.py:114-162 | a missing CSV or missing required columns abort the build with that error and nothing else does; on success the index holds one embedding per shot in order, and the metadata has the selected header and one row per shot |
| TimeParse.ParseDecimal | app/timeparse.py:30-31 | float(s) for a string matching digits(.digits)?, and None for any other string; a parsed string begins and ends with a digit, so a signed string such as "-1" is never parsed (ParseDecimalMatches gives the exact language) |
| TimeParse.ParseDecimalSound | app/timeparse.py:30-31 | every string the decimal reader accepts matches digits(.digits)? |
| TimeParse.ParseDecimalComplete | app/timeparse.py:30-31 | every string matching digits(.digits)? is accepted |
| TimeParse.ParseDecimalNonNegative | app/timeparse.py:30-31 | a parsed decimal is never negative |
| TimeParse.ParseDecimalMatches | app/timeparse.py:30-31 | the decimal reader accepts exactly digits(.digits)?, with a non-negative value |
| TimeParse.ParseDigits | app/timeparse.py:30-31 | a digit run, leading zeros included, parses as its numeric value |
| TimeParse.NatStringValue | app/timeparse.py:30-31 | reading the digits of a numeral gives the number back |
| TimeParse.ParseNatString | app/timeparse.py:30-31 | a numeral parses back to its number |
| TimeParse.NonTextInputs | app/timeparse.py:19-27 | None reads as 0, a number is returned unchanged, and a blank string reads as 0 |
| TimeParse.TimeIgnoresSurroundingSpace | app/timeparse.py:25 | surrounding whitespace never changes the result |
| TimeParse.ExampleSeconds | app/timeparse.py:16 | "101" reads as 101 seconds |
| TimeParse.SecondsRoundTrip | app/timeparse.py:30-31 | the numeral of any n reads as n seconds |
| TimeParse.ColonNotDecimal | app/timeparse.py:30-31 | a string containing a colon never takes the plain-decimal branch |
| TimeParse.SplitColons | app/timeparse.py:33 | s.split(":"): at least one piece, and no piece holds a colon (JoinSplitColons: joining the pieces gives s back) |
| TimeParse.JoinSplitColons | app/timeparse.py:33 | joining the colon-split pieces with colons gives the string back |
| TimeParse.SplitJoinColons | app/timeparse.py:33 | splitting a colon-join of colon-free pieces gives the pieces back |
| TimeParse.Segments | app/timeparse.py:34 | the stripped non-empty pieces, in order; never more than the pieces (SegmentsOfClean and EmptyPieceDropped state which survive) |
| TimeParse.SegmentsOfClean | app/timeparse.py:34 | pieces that are already non-empty and stripped pass the segment filter unchanged |
| TimeParse.FromSegments | app/timeparse.py:35-40 | h*3600 + m*60 + sec for three segments, m*60 + sec for two, or the ValueError of the first bad segment; a failure always names one of the segments (FromSegmentsFails: exactly when, and which) |
| TimeParse.FromSegmentsFails | app/timeparse.py:35-40 | the colon branches fail exactly when some segment is not a decimal, and the error names the first such segment |
| TimeParse.HmsValue | app/timeparse.py:35-37 | three digit runs joined by colons read as h*3600 + m*60 + s, with no range check |
| TimeParse.HmsRoundTrip | app/timeparse.py:35-37 | the H:M:S numeral of any h, m, s reads as h*3600 + m*60 + s |
| TimeParse.ExampleHms | app/timeparse.py:13 | "0:01:41" reads as 101 seconds |
| TimeParse.MsValue | app/timeparse.py:38-40 | two digit runs joined by a colon read as m*60 + s |
| TimeParse.MsRoundTrip | app/timeparse.py:38-40 | the M:S numeral of any m, s reads as m*60 + s |
| TimeParse.ExampleMs | app/timeparse.py:15 | "1:41" reads as 101 seconds |
| TimeParse.EmptyPieceDropped | app/timeparse.py:33-34 | an empty piece between colons is dropped before counting, so M::SS reads as M:SS |
| TimeParse.NumberSpan | app/timeparse.py:43 | the span of the first match of (\d+(\.\d+)?): a non-empty span inside s that starts at a digit (NumberSpanShape: at the first digit, and the longest match there) |
| TimeParse.NumberSpanShape | app/timeparse.py:43 | the search finds nothing exactly when there is no digit; otherwise the span starts at the first digit, matches digits(.digits)?, and is the longest such match there |
| TimeParse.FirstNumber | app/timeparse.py:42-44 | the fallback value is never negative |
| TimeParse.TimeToSeconds | app/timeparse.py:9-44 | time_to_seconds: None gives 0, a number is itself, and a string goes through strip, the plain-decimal test, the colon branches and the first-number fallback; only a string can fail (TimeFailsOnlyOnSegments says exactly when) |
| TimeParse.TimeNonNegative | app/timeparse.py:25-44 | with float() on a colon segment read as unsigned digits(.digits)?, a string never reads as a negative number of seconds (a signed segment is under Left out) |
| TimeParse.TimeFailsOnlyOnSegments | app/timeparse.py:25-44 | the conversion fails exactly when the stripped text is non-blank, not a decimal, splits into two or three segments, and one segment is not a decimal |
| Retriever.ClampTopK | app/retriever.py:50 | top_k is clamped into 1..5: values in range are kept, smaller ones become 1, larger ones 5 |
| Retriever.HitOf | app/retriever.py:77-90 | the hit dict built from one metadata row with its rank and score, or the error of converting its start_time; HitOfShape states its fields and when it fails |
| Retriever.HitOfShape | app/retriever.py:77-89 | a hit takes the stripped shot_id, start_time, title and characters of its metadata row and start_sec from the time conversion; building it fails exactly when the conversion fails, with the same error |
| Retriever.Kept | app/retriever.py:69-75 | kept positions are within the list and never the -1 sentinel |
| Retriever.KeptShape | app/retriever.py:69-75 | kept positions ascend, each has a non-negative id and a score of at least 0.842, and every such position is kept |
| Retriever.Collect | app/retriever.py:68-91 | the results of the loop over the first n positions of the FAISS answer, or the first error raised; CollectKept, CollectFails and CollectFailureSticks state what it holds |
| Retriever.CollectFailureSticks | app/retriever.py:86 | once a start time fails to convert, the rest of the loop cannot recover |
| Retriever.CollectKept | app/retriever.py:68-91 | hit j is built from the j-th kept position, with rank j+1 and the score read at that position |
| Retriever.CollectFails | app/retriever.py:78-86 | the loop fails exactly when the start time of some kept row does not convert |
| Retriever.SceneRetriever.constructor | app/retriever.py:34-35 | the retriever holds the loaded index and metadata |
| Retriever.SceneRetriever.CollectHits | app/retriever.py:68-93 | the loop over the search answer returns the hits of the specification |
| Retriever.SceneRetriever.Search | app/retriever.py:44-93 | search returns the specified answer for the current index and metadata and changes neither |
| Retriever.Open | app/retriever.py:22-42 | loading fails on a missing index, then on a missing metadata file, then on a size mismatch, and succeeds otherwise with fillna applied to the metadata |
| IndexBuilder.FillRows | app/retriever.py:35 | fillna keeps the number of rows and fills each row on its own |
| Retriever.SearchResult | app/retriever.py:44-93 | search(query, top_k) from the query to the hits, or the error it raises; BlankQuery, SearchHits, HitsDescending and SearchFails state its properties |
| Retriever.BlankQuery | app/retriever.py:45-47 | a missing or blank query returns no hits |
| Retriever.SearchHits | app/retriever.py:44-93 | at most top_k (≤ 5) hits; ranks are exactly 1..M; every score is at least 0.842; the hits follow ascending positions of the index answer, scores read at their own position, and are built from the metadata row of that position's id |
| Retriever.HitsDescending | app/retriever.py:56-91 | when the index returns descending scores, the hits' scores also descend |
| Retriever.SearchFails | app/retriever.py:44-93 | search fails exactly when the query is not blank and the start time of some kept row does not convert |
| Pipeline.MetaReloads | app/build_index.py:161-165 | reading the built metadata back with fillna gives the rows the build wrote |
| Pipeline.BuildThenOpen | app/retriever.py:29-42 | artifacts from a successful build always pass the loading checks, with the index size equal to the CSV row count; after a failed build the retriever loads, or rejects, whatever artifacts the directory held before |
| Dedupe.KeyOf | static/app.js:40-43 | the dedupe key is by shot_id when one is present, else by start_sec when one is present, else by rank and score |
| Dedupe.Deduped | static/app.js:35-49 | the items dedupeResults keeps, in input order; never more than the input, and the first item is always kept (DedupedShape states the rest) |
| Dedupe.FirstWithKey | static/app.js:44-46 | the chosen position holds the key and no earlier item has it |
| Dedupe.DedupeResults | static/app.js:35-49 | the loop with its `seen` set returns the deduplicated list |
| Dedupe.DedupedSubsequence | static/app.js:39-47 | the output is an order-preserving subsequence of the input |
| Dedupe.DedupedUniqueKeys | static/app.js:44-46 | no two output items share a key |
| Dedupe.DedupedKeySet | static/app.js:44-46 | every input key appears in the output, and no other key does |
| Dedupe.DedupedKeepsFirst | static/app.js:44-46 | each output item is the first input item with its key |
| Dedupe.DedupedShape | static/app.js:35-49 | the output keeps order, has unique keys, loses no key, and is never longer than the input |
| Dedupe.DedupedUnique | static/app.js:39-47 | a list whose keys are already distinct passes through unchanged |
| Dedupe.DedupedIdempotent | static/app.js:35-49 | deduplicating twice is the same as deduplicating once |

## Left out

- File and process I/O is out of the model: reading and writing the CSV, the FAISS index and meta.csv, the build-info JSON, directory creation, argument parsing and logging. File existence and file contents are parameters (`csvExists`, `indexFile`, `metaFile`).
- pandas' type inference when it reads a CSV back is not modelled. For example, an all-number `shot_id` column read back as integers is not captured. A cell is text or missing, and fillna("") is `FillRow`.
- float32 arithmetic and rounding are not modelled. Vectors hold `real`s, so the weights 0.6 and 0.4 and the norm are exact.
- The sentence-embedding model, FAISS's inner-product search and the square root inside `np.linalg.norm` are foreign code. Each is a function parameter with a stated contract (`Embeds`/`UnitModel`, `KnnContract`, `IsSqrt`). The unit-norm property of `normalize_embeddings=True` is the assumption `UnitModel`.
- `KnnContract` takes FAISS's guarantee that every returned id is -1 or below `ntotal`. The IndexError the source would raise otherwise is not modelled.
- `E5Embedder.__post_init__` (model loading, `dim`), `batch_size` and the progress bar are library configuration, so they are not modelled.
- The first loop of `search` (app/retriever.py:58-66) is not modelled. It only reads values, and its results are discarded at line 68.
- `app/main.py` and the pydantic bound on `top_k` are HTTP plumbing, so they are not part of this model. `data/split_scenes.py` is not part of this model either.
- The rest of `static/app.js` is not modelled: rendering, video control, fetch and request sequencing are DOM work and concurrency.
- TimeParse.ParseDecimal: `\d` is ASCII digits only, and `float()` on a colon segment accepts only digits(.digits)?. Python's Unicode digits and forms such as "1e3", "inf", "-1", "+5" or " 5 " inside a segment are treated as the ValueError case.
- TimeParse.TimeNonNegative: Python's `float()` accepts a signed segment, so the source reads "-1:30" as -30.0 seconds. The model treats "-1" as the ValueError case, and the lemma holds only under that reading.
- TimeParse.TimeFailsOnlyOnSegments: under the same reading, "-1:30" fails in the model, while the source returns -30.0.
- Retriever.SearchFails: under the same reading, a kept row whose start_time has a signed colon segment, such as "-1:30", makes the modelled search fail. The source returns that hit with a negative start_sec.
- TimeParse: the examples "00:01:41.50", "garbage45text" and "a:b" are covered only by the general lemmas, not as concrete strings. Those lemmas are `TimeFailsOnlyOnSegments`, `FromSegmentsFails` and `NumberSpanShape`.
- Dedupe.KeyOf: the key string is a datatype with one constructor per prefix, because the prefixes "sid:", "t:" and "rank:" cannot collide. JavaScript's number-to-string conversion is modelled as injective, so the "0" key of both -0 and 0 and the NaN cases are not captured. A null rank or score in the third form is not modelled; those fields are `real`.
- IndexBuilder.MetaRow: a candidate column absent from a row is written as "". This case cannot arise for a table whose rows all hold its header's columns, so the model does not tie a row's keys to the table header.

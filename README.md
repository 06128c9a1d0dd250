# Temporal feature aggregation and evaluation alignment, in Dafny

This project models the part of the Real-World Anomaly Detection pipeline that turns a
variable number of clip features into a fixed 32-segment representation, stores it as text
and loads it again, and then spreads 32 segment scores back over a video's frames so that
they line up with the frame-level ground truth.

- `results.dfy` (`Results`): `Option`, `Result` and `Outcome`, the error paths of the model.
- `feature_text.dfy` (`FeatureText`): the text format of a feature file. A row is its
  tokens joined by single spaces, and a file is its lines, each followed by `\n`. Reading
  uses Python's `str.splitlines` (every Unicode line boundary, with `\r\n` as one) and
  `str.split(' ')`. For a row, both directions of the round trip are proved: splitting a
  space-join gives the tokens back, and joining a split gives the line back. For a file, the
  proof goes one way: reading a written file returns exactly the lines written.
- `segments.dfy` (`Segments`): the numeric core of `FeaturesWriter.dump`. Rows are ordered
  by start-frame key, padded with `32*ceil(N/32) - N` zero rows, cut into 32 chunks of
  `c = ceil(N/32)` rows, and each chunk is averaged. The lemmas cover:
  - where each stored feature lands;
  - the padding arithmetic;
  - what each segment holds;
  - short videos;
  - conservation of column mass (`c` times the segments' sum equals the buffer's sum).
- `feature_extractor.dfy` (`FeatureExtractor`):
  - The `FeaturesWriter` class, with the same mutable fields as the Python object (`path`,
    `dir`, `data`) plus a ghost log of completed dumps.
  - A `FileSystem` object that holds the existing directories and the text of each file.
  - `read_features` as a method that fills a preallocated array line by line.
  - The dump-then-read round trip.
- `generate_roc.dfy` (`GenerateRoc`): lines 74-91 of the evaluation script.
  - The 0/1 label vector from annotated `(start, end)` couples, with Python slice semantics
    for the bounds.
  - The score vector that copies `output[i]` over frames `[i*L, (i+1)*L)`.
  - The running `y_trues` / `y_preds`, which start as `None` and are extended by
    concatenation.

`str(x)` and `float(x)` stay abstract. The writer holds `format: real -> Token`, where a
token has no space and no line break. The reader takes `parse: string -> Option<real>`, with
`None` where `float` raises. The round-trip lemma assumes `parse` undoes `format` on the
values written.

Where the code behaves differently from how it reads, the model follows the code:
- The reader does not infer the row width. The array is `np.zeros((len(lines), 4096))`,
  which does not raise, so the 2048 fallback never runs. A line of 4096 values is a row. A
  line of one value is broadcast by numpy over the whole row. Any other count fails
  (`ParseRowCases`).
- Calling `dump` before any `write` is not a silent no-op: `path.exists(None)` raises
  (`NoVideo`).
- The code raises only generic exceptions. The model's errors are the points where it
  raises:
  - `NoVideo`;
  - `EmptyBuffer` and `RaggedRows`, both after the directory is created and before the
    file is opened;
  - `MissingFile`;
  - `BadLine`.
- There is no length check when accumulating. The two vectors of a video always have the
  video's length (`TotalsAligned`).

## Model

| member | source | states |
|---|---|---|
| `FeatureText.Split` | feature_extractor.py:116 | `line.split(' ')` yields at least one field, and no field contains a space |
| `FeatureText.Join` | feature_extractor.py:80 | `' '.join(tokens)`; `SplitJoin` and `JoinSplit` prove it is the inverse of `Split` |
| `FeatureText.SplitJoin` | feature_extractor.py:116 | splitting the space-join of space-free tokens gives the tokens back, exactly when there is at least one token; no tokens read back as `[""]` |
| `FeatureText.JoinSplit` | feature_extractor.py:80 | joining the fields of any line with single spaces gives back the line |
| `FeatureText.RenderLines` | feature_extractor.py:78-80 | the text written for no lines is empty, and otherwise it ends with `\n` |
| `FeatureText.SplitLines` | feature_extractor.py:110 | no line returned by `splitlines` contains a line boundary |
| `FeatureText.SplitLinesRender` | feature_extractor.py:110 | `splitlines` of the text written for a list of boundary-free lines returns exactly those lines |
| `FeatureText.RenderLinesSnoc` | feature_extractor.py:77-80 | writing one more line appends that line and `\n` to the file text |
| `FeatureText.JoinTokensNoLineBreak` | feature_extractor.py:79-80 | a row of `str(x)` tokens joined by spaces holds no line boundary, so it stays one line |
| `Segments.SortedKeys` | feature_extractor.py:71 | `sorted(self.data)` has one entry per key and exactly the keys of the buffer |
| `Segments.OrderedRows` | feature_extractor.py:71 | `[data[key] for key in sorted(data)]` has one row per stored feature; `OrderedRowsByKey` places each feature at its key's rank |
| `Segments.SortedKeysIncreasing` | feature_extractor.py:71 | the sorted keys are strictly increasing |
| `Segments.SortedKeysAtRank` | feature_extractor.py:71 | key `k` sits at position "number of keys below `k`" in the sorted keys |
| `Segments.OrderedRowsByKey` | feature_extractor.py:71 | the stacked row at the rank of key `k` is `data[k]`, whatever order the entries were stored in |
| `Segments.OrderedRowsAscending` | feature_extractor.py:71 | a smaller start frame gives an earlier row |
| `Segments.PaddingCount` | feature_extractor.py:73 | `32*ceil(N/32) - N` lies in `[0, 31]` and makes `N + padding` a multiple of 32 |
| `Segments.PaddingExamples` | feature_extractor.py:73 | N=1 pads 31 rows, N=32 pads none, N=33 pads 31 rows and gives chunks of two |
| `Segments.ChunkSize` | feature_extractor.py:74-75 | 32 chunks of `c` rows cover exactly the padded rows, and `c = ceil(N/32)` is at least one for a non-empty buffer |
| `Segments.Padded` | feature_extractor.py:74 | `vstack` with the zero rows has `N + padding` rows, all as wide as the features |
| `Segments.ChunkStartIsProduct` | feature_extractor.py:75 | chunk `k` starts at padded row `k*c` |
| `Segments.ChunkFits` | feature_extractor.py:75 | chunk `k < 32` ends within the `32*c` padded rows |
| `Segments.ChunkMean` | feature_extractor.py:76 | the element-wise mean of a chunk is as wide as its rows |
| `Segments.Aggregate` | feature_extractor.py:73-76 | the reduction always produces exactly 32 rows, each as wide as the features |
| `Segments.AggregateAt` | feature_extractor.py:75-76 | segment `k` is the element-wise mean of padded rows `[k*c, k*c + c)` |
| `Segments.SegmentSum` | feature_extractor.py:73-76 | `c` times column `j` of segment `k` is the sum of column `j` over the stored rows inside chunk `k`; padding adds nothing but still counts in the divisor |
| `Segments.TrailingSegmentIsZero` | feature_extractor.py:73-76 | a segment whose chunk begins after the last stored row is all zeros |
| `Segments.ShortVideoSegments` | feature_extractor.py:73-76 | with at most 32 rows, `c = 1` and the segments are the rows in order, then zero rows |
| `Segments.MassPreserved` | feature_extractor.py:73-76 | `c` times the column sum over the 32 segments equals the column sum over the stored rows |
| `FeatureExtractor.JoinPathParts` | feature_extractor.py:59 | `path.join(dir, name)` ends with `name`, and begins with `dir` unless `name` is absolute |
| `FeatureExtractor.JoinPath` | feature_extractor.py:59 | POSIX `path.join`: an absolute second part replaces the first, otherwise a single `/` separates them; `JoinPathParts` states its prefix and suffix |
| `FeatureExtractor.VideoPath` | feature_extractor.py:105 | the feature file of a video is `join(dir, name + ".txt")`, the same path `_init_video`, `_is_new_video` and `read_features` compute |
| `FeatureExtractor.FileSystem.constructor` | feature_extractor.py:68 | the file system starts with the given directories and files |
| `FeatureExtractor.FileSystem.WriteRows` | feature_extractor.py:77-80 | opening with `'w'` and writing each row as a space-joined line replaces the file with exactly `FileText(rows)`, and no other file changes |
| `FeatureExtractor.FileSystem.MakeDir` | feature_extractor.py:68-69 | after the check-then-`mkdir`, the directory exists, and no other directory was added |
| `FeatureExtractor.FileSystem.WriteSegments` | feature_extractor.py:71-80 | the file at `p` becomes the text of the buffer's 32 segments, and no other file changes |
| `FeatureExtractor.Width` | feature_extractor.py:71 | every stacked row has the common width |
| `FeatureExtractor.UniformByKey` | feature_extractor.py:71 | the sorted rows stack into a 2-D array exactly when any two stored features have the same width |
| `FeatureExtractor.WidthOfEveryFeature` | feature_extractor.py:71 | in a stackable buffer, every stored feature has the width the segments get |
| `FeatureExtractor.SegmentsShape` | feature_extractor.py:71-76 | a dump computes 32 rows, each as wide as the stored features |
| `FeatureExtractor.SegmentsOf` | feature_extractor.py:71-76 | the rows a dump computes: the ordered features aggregated into 32 segments; `SegmentsShape` gives their shape, and `AggregateAt` and `SegmentSum` give their contents |
| `FeatureExtractor.FileTextSnoc` | feature_extractor.py:77-80 | the text of `rows + [row]` is the text of `rows` followed by `row`'s line and `\n` |
| `FeatureExtractor.FormatRow` | feature_extractor.py:79 | `[str(x) for x in d]` gives one token per value |
| `FeatureExtractor.FileText` | feature_extractor.py:77-80 | the text a dump writes: one space-joined line per row, each followed by `\n`; `FileTextSnoc` and `ParseRendered` state its growth and read-back |
| `FeatureExtractor.FeaturesWriter.constructor` | feature_extractor.py:52-56 | a new writer has no path, directory or buffer, keeps `chunk_size`, and has dumped nothing |
| `FeatureExtractor.FeaturesWriter.HasVideo` | feature_extractor.py:63-64 | `has_video` is true exactly when a buffer exists, and then path and directory exist too |
| `FeatureExtractor.FeaturesWriter.IsNewVideo` | feature_extractor.py:82-87 | `_is_new_video` is false when there is no current path, and false when the current path is `join(dir, name + ".txt")`; any other current path gives true, and then a video is open |
| `FeatureExtractor.FeaturesWriter.InitVideo` | feature_extractor.py:58-61 | the path becomes `join(dir, name + ".txt")`, the directory becomes `dir` and the buffer becomes an empty dict |
| `FeatureExtractor.FeaturesWriter.Store` | feature_extractor.py:89-90 | `data[idx]` becomes the feature, replacing any earlier value, and every other key keeps its value |
| `FeatureExtractor.FeaturesWriter.DumpBuffer` | feature_extractor.py:71-80 | an empty buffer or rows of different widths fail and leave the files alone; otherwise the path's file becomes the text of the 32 segments |
| `FeatureExtractor.FeaturesWriter.Dump` | feature_extractor.py:66-80 | without a video it raises and changes nothing; otherwise it creates the directory, then either fails (empty or ragged buffer) with the files untouched, or writes the segments of the current buffer to the current path and logs that one dump |
| `FeatureExtractor.FeaturesWriter.Write` | feature_extractor.py:92-100 | the first write opens the buffer `{idx: feature}` and dumps nothing; a write for the current file only stores; a write for another file dumps the old buffer to the old path exactly once, then holds only the new entry under the new path; if that dump fails, nothing but the directory changes |
| `FeatureExtractor.ParseTokensValues` | feature_extractor.py:116 | `[float(x) for x in tokens]` succeeds exactly when every token parses, and then holds each token's value in order |
| `FeatureExtractor.ParseTokens` | feature_extractor.py:116 | `[float(x) for x in tokens]`, or nothing when one `float` raises; `ParseTokensValues` states when it succeeds and its values |
| `FeatureExtractor.ParseRow` | feature_extractor.py:116 | a line that is accepted fills a row of exactly 4096 values |
| `FeatureExtractor.ParseRowCases` | feature_extractor.py:111-116 | a line fails as unparsable exactly when some token does not parse; otherwise 4096 values are the row, one value is broadcast over the row, and any other count (2048 included) is rejected |
| `FeatureExtractor.ParseLines` | feature_extractor.py:110-116 | the row-by-row loop over the preallocated array returns the parse of every line, or the first line that fails |
| `FeatureExtractor.ParseFrom` | feature_extractor.py:115-116 | the rows parsed from the remaining lines, or the first line that fails; `ParseFromShape` gives the shape of a successful read |
| `FeatureExtractor.ReadResult` | feature_extractor.py:103-118 | what `read_features` returns or raises for given file contents; `ReadFeatures` is proved to compute it |
| `FeatureExtractor.ReadFeatures` | feature_extractor.py:103-118 | a missing `join(dir, name + ".txt")` raises; otherwise the file's `splitlines` are parsed line by line |
| `FeatureExtractor.ParseFromShape` | feature_extractor.py:110-116 | a successful read has one row per line, each 4096 wide |
| `FeatureExtractor.ParseFormattedRow` | feature_extractor.py:116 | a 4096-wide row written as space-joined tokens parses back to the same row, when `parse` undoes `format` on the written values |
| `FeatureExtractor.ParseRendered` | feature_extractor.py:110-116 | the lines written for 4096-wide rows parse back to those rows, in order, when `parse` undoes `format` on the written values |
| `FeatureExtractor.DumpReadRoundTrip` | feature_extractor.py:66-118 | reading the file a dump wrote for 4096-wide features returns exactly the 32 dumped segments, when `parse` undoes `format` on the written values |
| `GenerateRoc.SliceIndex` | generate_ROC.py:79 | a Python slice bound is clamped to `[0, vid_len]`, a negative bound counting from the end |
| `GenerateRoc.LabelVector` | generate_ROC.py:75 | the label vector has `vid_len` entries |
| `GenerateRoc.ExpandLabels` | generate_ROC.py:75-79 | zero-filling and then setting each present couple's slice to 1 yields the label vector of the couples |
| `GenerateRoc.LabelsAreBinary` | generate_ROC.py:75-79 | every label is 0 or 1, and a frame is labelled 1 exactly when some couple with start `!= -1` covers it under slice bounds |
| `GenerateRoc.LabelsIgnoreOrder` | generate_ROC.py:77-79 | lists with the same couples give the same labels, whatever their order or repetition |
| `GenerateRoc.LabelsUnion` | generate_ROC.py:77-79 | the labels of two lists of couples together are the pointwise maximum of their labels, so overlaps do not matter |
| `GenerateRoc.AbsentCoupleIgnored` | generate_ROC.py:78 | a couple whose start is `-1` changes no label, wherever it appears |
| `GenerateRoc.SegmentLength` | generate_ROC.py:76 | `vid_len // 32` is the largest `L` with `32*L <= vid_len` |
| `GenerateRoc.ScoreAt` | generate_ROC.py:80-84 | every frame score is 0 or one of the 32 segment scores |
| `GenerateRoc.ScoreVector` | generate_ROC.py:80 | the score vector has `vid_len` entries |
| `GenerateRoc.ExpandScores` | generate_ROC.py:80-84 | zero-filling and then copying `output[i]` over `[i*L, (i+1)*L)` for `i < 32` yields the score vector |
| `GenerateRoc.SegmentFramesScore` | generate_ROC.py:81-84 | every frame in `[i*L, (i+1)*L)` exists and scores `output[i]` |
| `GenerateRoc.TrailingFramesScoreZero` | generate_ROC.py:76-84 | the `vid_len % 32` frames after `32*L` score 0 |
| `GenerateRoc.ShortVideoScoresZero` | generate_ROC.py:76-84 | a video of fewer than 32 frames scores 0 on every frame |
| `GenerateRoc.Accumulate` | generate_ROC.py:74-91 | the totals stay `None` only when there are no videos, and are otherwise the concatenated label and score vectors of all videos, in order |
| `GenerateRoc.TotalsAligned` | generate_ROC.py:86-91 | both totals have the same length, the sum of `vid_len` over the videos |
| `GenerateRoc.TotalsExtend` | generate_ROC.py:86-91 | the totals after the first `k` videos are a prefix of the totals after all of them |
| `GenerateRoc.FrameAligned` | generate_ROC.py:86-91 | frame `f` of video `k` sits at the same index of both totals, holding that video's label and score for the frame |

## Left out

- `FeatureExtractor.SegmentsOf`: the L2 normalisation at feature_extractor.py:72 is not
  modelled, so the features are taken as already normalised. It needs a square root, and a
  zero row gives NaN.
- `FeatureExtractor.FeaturesWriter.Dump`: the progress `print` at line 67 is not modelled.
  A `mkdir` failure (for example a missing parent directory) and `open` failures are not
  modelled either, because they are operating-system I/O.
- `str(x)` and `float(x)` are library float formatting and parsing. They are the opaque
  parameters `format` and `parse`. Feature values are mathematical reals rather than float32.
- `FeatureExtractor.DumpReadRoundTrip`: the program writes float32 segment values with
  `str` and reads them back with `float` into a float64 array. The real read-back therefore
  matches only to the printed float32 precision: float32 0.1 is written as `0.1` and read
  as float64 0.1. The lemma's assumption that `parse` undoes `format` holds for exact reals
  only, so the lemma states the text layer (lines and tokens) exactly, and the values only
  under that assumption.
- `chunk_size` is stored by the constructor and never read, as in the source.
- The `except` branch of `read_features` (the 2048-wide array) cannot run, so it has no
  counterpart.
- Argument parsing, device selection, seeding, the module-level globals at
  feature_extractor.py:46-48, the extraction `main`, the data loaders and the networks are
  not modelled. These are configuration, model inference and I/O.
- In the evaluation script, `get_video_length` (a cv2 call) is not modelled. The network
  inference and the reshape of its output to 32 scores per video are not modelled either:
  `Accumulate` receives each video's length, couples and 32 scores.
- `roc_curve`, `auc` and the plotting at generate_ROC.py:93-108 are not modelled. They are
  floating-point library code and output.

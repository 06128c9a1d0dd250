/**
 * `FeaturesWriter` of feature_extractor.py: a single-writer buffer that collects one
 * video's clip features keyed by start frame, and on a change of video writes the
 * previous video's 32 averaged segments to `<dir>/<video>.txt`; and `read_features`,
 * which loads such a file back. The file system is an explicit object holding the
 * existing directories and the text of every file.
 */
module FeatureExtractor {
  import opened Results
  import opened FeatureText
  import opened Segments

  // ---------------------------------------------------------------------------
  // Paths and the file system

  /** POSIX `os.path.join(a, b)`: an absolute `b` replaces `a`, otherwise one `/` separates them. */
  function JoinPath(a: string, b: string): string
  {
    if |b| > 0 && b[0] == '/' then b
    else if a == "" || a[|a| - 1] == '/' then a + b
    else a + "/" + b
  }

  /** The joined path ends with `b`, and starts with `a` unless `b` is absolute. */
  lemma JoinPathParts(a: string, b: string)
    ensures |b| <= |JoinPath(a, b)| && JoinPath(a, b)[|JoinPath(a, b)| - |b|..] == b
    ensures (|b| > 0 && b[0] == '/') || (|a| <= |JoinPath(a, b)| && JoinPath(a, b)[..|a|] == a)
  {
  }

  /** `path.join(dir, f"{video_name}.txt")`, the file that holds one video's features. */
  function VideoPath(dir: string, videoName: string): string {
    JoinPath(dir, videoName + ".txt")
  }

  /** The part of the file system the extractor touches. */
  class FileSystem {
    var dirs: set<string>
    var files: map<string, string>

    constructor (dirs: set<string>, files: map<string, string>)
      ensures this.dirs == dirs && this.files == files
    {
      this.dirs := dirs;
      this.files := files;
    }

    /** `with open(p, 'w') as fp: for d in rows: fp.write(' '.join(str(x) for x in d) + '\n')`:
        truncate the file, then append one line per row. */
    method WriteRows(p: string, rows: seq<Row>, format: real -> Token)
      modifies this`files
      ensures files == old(files)[p := FileText(rows, format)]
    {
      files := files[p := ""];
      for i := 0 to |rows|
        invariant files == old(files)[p := FileText(rows[..i], format)]
      {
        FileTextSnoc(rows[..i], rows[i], format);
        assert rows[..i + 1] == rows[..i] + [rows[i]];
        var line := FormatRow(rows[i], format);
        files := files[p := files[p] + Join(line) + "\n"];
      }
      assert rows[..|rows|] == rows;
    }

    /** `if not path.exists(d): os.mkdir(d)`. */
    method MakeDir(d: string)
      modifies this`dirs
      ensures dirs == old(dirs) + {d}
    {
      if d !in dirs {
        dirs := dirs + {d};
      }
    }

    /** The success path of `dump`: the buffer's segments, one line each, into file `p`. */
    method WriteSegments(p: string, buffer: map<int, Row>, format: real -> Token)
      requires |buffer| >= 1 && Uniform(buffer)
      modifies this`files
      ensures files == old(files)[p := FileText(SegmentsOf(buffer), format)]
    {
      var segments := SegmentsOf(buffer);
      WriteRows(p, segments, format);
    }
  }

  // ---------------------------------------------------------------------------
  // What a dump writes

  /** `np.array([data[key] for key in sorted(data)])` is a 2-D array: every row is as wide
      as the first. */
  predicate Uniform(buffer: map<int, Row>) {
    var rows := OrderedRows(buffer);
    forall i :: 0 <= i < |rows| ==> |rows[i]| == |rows[0]|
  }

  /** The common width of a non-empty uniform buffer. */
  function Width(buffer: map<int, Row>): (d: nat)
    requires |buffer| >= 1 && Uniform(buffer)
    ensures HasWidth(OrderedRows(buffer), d)
  {
    |OrderedRows(buffer)[0]|
  }

  /** The rows stack exactly when any two stored features have the same width. */
  lemma UniformByKey(buffer: map<int, Row>)
    ensures Uniform(buffer) <==> forall k1, k2 :: k1 in buffer && k2 in buffer ==> |buffer[k1]| == |buffer[k2]|
  {
    var rows := OrderedRows(buffer);
    var ks := SortedKeys(buffer.Keys);
    assert forall i :: 0 <= i < |rows| ==> ks[i] in buffer && rows[i] == buffer[ks[i]];
    if Uniform(buffer) {
      forall k1, k2 | k1 in buffer && k2 in buffer
        ensures |buffer[k1]| == |buffer[k2]|
      {
        OrderedRowsByKey(buffer, k1);
        OrderedRowsByKey(buffer, k2);
      }
    }
  }

  /** Under a uniform buffer every stored feature has the width of the segments. */
  lemma WidthOfEveryFeature(buffer: map<int, Row>, k: int)
    requires |buffer| >= 1 && Uniform(buffer) && k in buffer
    ensures |buffer[k]| == Width(buffer)
  {
    OrderedRowsByKey(buffer, k);
  }

  /** The 32 segment rows `dump` computes from a buffer. */
  function SegmentsOf(buffer: map<int, Row>): seq<Row>
    requires |buffer| >= 1 && Uniform(buffer)
  {
    Aggregate(OrderedRows(buffer), Width(buffer))
  }

  /** A dump writes 32 rows, each as wide as the buffered features. */
  lemma SegmentsShape(buffer: map<int, Row>)
    requires |buffer| >= 1 && Uniform(buffer)
    ensures |SegmentsOf(buffer)| == SegmentCount && HasWidth(SegmentsOf(buffer), Width(buffer))
  {
  }

  /** `[str(x) for x in d]`. */
  function FormatRow(row: Row, format: real -> Token): (ts: seq<Token>)
    ensures |ts| == |row|
  {
    seq(|row|, j requires 0 <= j < |row| => format(row[j]))
  }

  /** The text of a feature file holding `rows`: one space-joined line per row. */
  function FileText(rows: seq<Row>, format: real -> Token): string {
    RenderLines(seq(|rows|, k requires 0 <= k < |rows| => Join(FormatRow(rows[k], format))))
  }

  lemma FileTextSnoc(rows: seq<Row>, row: Row, format: real -> Token)
    ensures FileText(rows + [row], format) == FileText(rows, format) + Join(FormatRow(row, format)) + "\n"
  {
    var lines := seq(|rows|, k requires 0 <= k < |rows| => Join(FormatRow(rows[k], format)));
    var rs := rows + [row];
    var lines' := seq(|rs|, k requires 0 <= k < |rs| => Join(FormatRow(rs[k], format)));
    assert lines' == lines + [Join(FormatRow(row, format))];
    RenderLinesSnoc(lines, Join(FormatRow(row, format)));
  }

  // ---------------------------------------------------------------------------
  // The writer

  datatype DumpError =
    | NoVideo      // `dump` before any `write`: `path.exists(None)` raises
    | EmptyBuffer  // an initialised but empty buffer has no feature width to pad with
    | RaggedRows   // rows of different widths cannot be stacked into one array

  class FeaturesWriter {
    var path: Option<string>
    var dir: Option<string>
    var data: Option<map<int, Row>>
    /** Kept as the constructor received it; nothing reads it. */
    const chunkSize: int
    /** `str(x)` for one feature value. */
    const format: real -> Token
    /** The video whose features are being buffered. */
    ghost var videoName: string
    /** Every completed dump, in order: the path written and the buffer it was computed from. */
    ghost var dumps: seq<(string, map<int, Row>)>

    /** path, dir and data are set together, and path names the current video's file. */
    ghost predicate Valid()
      reads this
    {
      Paired() && (path.Some? ==> path.value == VideoPath(dir.value, videoName))
    }

    /** path, dir and data are set together. */
    predicate Paired()
      reads this
    {
      && (path.Some? <==> dir.Some?)
      && (path.Some? <==> data.Some?)
    }

    /** Between calls of `Write` a current video has at least one feature stored. */
    ghost predicate Buffered()
      reads this
    {
      Valid() && (data.Some? ==> |data.value| >= 1)
    }

    constructor (chunkSize: int, format: real -> Token)
      ensures Buffered()
      ensures path.None? && dir.None? && data.None?
      ensures this.chunkSize == chunkSize && this.format == format
      ensures dumps == []
    {
      this.path := None;
      this.dir := None;
      this.data := None;
      this.chunkSize := chunkSize;
      this.format := format;
      this.dumps := [];
    }

    /** `has_video`: a buffer exists; under the invariant so do the path and directory. */
    function HasVideo(): (b: bool)
      reads this
      requires Valid()
      ensures b <==> data.Some?
      ensures b ==> path.Some? && dir.Some?
    {
      data.Some?
    }

    /** `_is_new_video`: a current path exists and differs from the one for `(videoName, dir)`. */
    function IsNewVideo(videoName: string, dir: string): (b: bool)
      reads this
      requires Valid()
      ensures b ==> HasVideo()
      ensures !b ==> path.None? || path == Some(VideoPath(dir, videoName))
      ensures path == Some(VideoPath(dir, videoName)) ==> !b
    {
      path.Some? && path.value != VideoPath(dir, videoName)
    }

    /** `_init_video`: point at a new video with an empty buffer. */
    method InitVideo(videoName: string, dir: string)
      modifies this
      ensures Valid()
      ensures path == Some(VideoPath(dir, videoName)) && this.dir == Some(dir) && data == Some(map[])
      ensures this.videoName == videoName && dumps == old(dumps)
    {
      this.path := Some(VideoPath(dir, videoName));
      this.dir := Some(dir);
      this.data := Some(map[]);
      this.videoName := videoName;
    }

    /** `store`: set the feature at start frame `idx`, replacing any earlier one there. */
    method Store(feature: Row, idx: int)
      requires Valid() && data.Some?
      modifies this`data
      ensures Valid()
      ensures data == Some(old(data).value[idx := feature])
      ensures idx in data.value && data.value[idx] == feature
      ensures data.value.Keys == old(data.value.Keys) + {idx}
      ensures forall k :: k in old(data.value) && k != idx ==> data.value[k] == old(data.value[k])
    {
      data := Some(data.value[idx := feature]);
    }

    /** The numpy part of `dump`: stack, pad, chunk, average and write one buffer to `p`. */
    method DumpBuffer(fs: FileSystem, p: string, buffer: map<int, Row>) returns (o: Outcome<DumpError>)
      modifies fs`files
      ensures |buffer| == 0 ==> o == Fail(EmptyBuffer)
      ensures |buffer| >= 1 && !Uniform(buffer) ==> o == Fail(RaggedRows)
      ensures o.Fail? ==> fs.files == old(fs.files)
      ensures o.Pass? <==> |buffer| >= 1 && Uniform(buffer)
      ensures o.Pass? ==> fs.files == old(fs.files)[p := FileText(SegmentsOf(buffer), format)]
    {
      if |buffer| == 0 {
        return Fail(EmptyBuffer);
      }
      if !Uniform(buffer) {
        return Fail(RaggedRows);
      }
      fs.WriteSegments(p, buffer, format);
      return Pass;
    }

    /** `dump`: write the current buffer's 32 segments to the current path, creating the
        directory first if it is missing. The buffer itself is kept. */
    method Dump(fs: FileSystem) returns (o: Outcome<DumpError>)
      requires Paired()
      modifies fs, this`dumps
      ensures data.None? ==> o == Fail(NoVideo) && unchanged(fs) && dumps == old(dumps)
      ensures data.Some? ==> fs.dirs == old(fs.dirs) + {dir.value}
      ensures data.Some? && |data.value| == 0 ==> o == Fail(EmptyBuffer)
      ensures data.Some? && |data.value| >= 1 && !Uniform(data.value) ==> o == Fail(RaggedRows)
      ensures o.Fail? ==> fs.files == old(fs.files) && dumps == old(dumps)
      ensures o.Pass? <==> data.Some? && |data.value| >= 1 && Uniform(data.value)
      ensures o.Pass? ==> fs.files == old(fs.files)[path.value := FileText(SegmentsOf(data.value), format)]
      ensures o.Pass? ==> dumps == old(dumps) + [(path.value, data.value)]
    {
      if data.None? {
        return Fail(NoVideo);
      }
      fs.MakeDir(dir.value);
      o := DumpBuffer(fs, path.value, data.value);
      if o.Pass? {
        dumps := dumps + [(path.value, data.value)];
      }
    }

    /** `write`: buffer `feature` at start frame `idx` of video `videoName` in `dir`. The
        first call opens a buffer; a call for another file dumps the current buffer
        first and starts a new one. */
    method Write(fs: FileSystem, feature: Row, videoName: string, idx: int, dir: string)
      returns (o: Outcome<DumpError>)
      requires Buffered()
      modifies this, fs
      ensures Buffered()
      // the first write opens a buffer and dumps nothing
      ensures old(data).None? ==>
        && o == Pass && unchanged(fs) && dumps == old(dumps)
        && path == Some(VideoPath(dir, videoName)) && this.dir == Some(dir)
        && data == Some(map[idx := feature])
      // a write for the current file only adds to the buffer
      ensures old(data).Some? && old(path) == Some(VideoPath(dir, videoName)) ==>
        && o == Pass && unchanged(fs) && dumps == old(dumps)
        && path == old(path) && this.dir == old(this.dir)
        && data == Some(old(data).value[idx := feature])
      // a write for another file dumps the old buffer to the old path exactly once
      ensures old(data).Some? && old(path) != Some(VideoPath(dir, videoName)) && Uniform(old(data).value) ==>
        && o == Pass
        && fs.files == old(fs.files)[old(path).value := FileText(SegmentsOf(old(data).value), format)]
        && fs.dirs == old(fs.dirs) + {old(this.dir).value}
        && dumps == old(dumps) + [(old(path).value, old(data).value)]
        && path == Some(VideoPath(dir, videoName)) && this.dir == Some(dir)
        && data == Some(map[idx := feature])
      // ... unless its rows cannot be stacked: then nothing but the directory changes
      ensures old(data).Some? && old(path) != Some(VideoPath(dir, videoName)) && !Uniform(old(data).value) ==>
        && o == Fail(RaggedRows)
        && fs.files == old(fs.files) && fs.dirs == old(fs.dirs) + {old(this.dir).value}
        && dumps == old(dumps)
        && path == old(path) && this.dir == old(this.dir) && data == old(data)
    {
      if !HasVideo() {
        InitVideo(videoName, dir);
      }
      if IsNewVideo(videoName, dir) {
        o := Dump(fs);
        if o.Fail? {
          return;
        }
        InitVideo(videoName, dir);
      }
      Store(feature, idx);
      o := Pass;
    }
  }

  // ---------------------------------------------------------------------------
  // Reading a feature file back

  /** The fixed width of the array `read_features` fills. */
  const RowWidth: nat := 4096

  datatype LineError =
    | Unparsable          // `float(x)` raised on some token of the line
    | BadWidth(count: nat) // the parsed values cannot be assigned to a row of `RowWidth`

  datatype ReadError =
    | MissingFile(path: string)
    | BadLine(line: nat, why: LineError)

  /** `[float(x) for x in ts]`, or nothing when some token does not parse. */
  function ParseTokens(ts: seq<string>, parse: string -> Option<real>): Option<seq<real>> {
    if ts == [] then Some([])
    else match (parse(ts[0]), ParseTokens(ts[1..], parse))
      case (Some(x), Some(xs)) => Some([x] + xs)
      case _ => None
  }

  /** The list comprehension succeeds exactly when every token parses, and then holds the
      parsed value of each token in order. */
  lemma {:induction false} ParseTokensValues(ts: seq<string>, parse: string -> Option<real>)
    ensures ParseTokens(ts, parse).Some? <==> forall k :: 0 <= k < |ts| ==> parse(ts[k]).Some?
    ensures ParseTokens(ts, parse).Some? ==>
      |ParseTokens(ts, parse).value| == |ts| &&
      forall k :: 0 <= k < |ts| ==> ParseTokens(ts, parse).value[k] == parse(ts[k]).value
  {
    if ts != [] {
      ParseTokensValues(ts[1..], parse);
      assert forall k :: 1 <= k < |ts| ==> ts[k] == ts[1..][k - 1];
    }
  }

  /** `features[i, :] = [float(x) for x in line.split(' ')]`: a full row, or a single value
      that numpy broadcasts over the whole row. */
  function ParseRow(line: string, parse: string -> Option<real>): (r: Result<Row, LineError>)
    ensures r.Success? ==> |r.value| == RowWidth
  {
    match ParseTokens(Split(line), parse)
    case None => Failure(Unparsable)
    case Some(vals) =>
      if |vals| == RowWidth then Success(vals)
      else if |vals| == 1 then Success(seq(RowWidth, _ => vals[0]))
      else Failure(BadWidth(|vals|))
  }

  /** The rows parsed from `lines[i..]`, or the first line that fails. */
  function ParseFrom(lines: seq<string>, i: nat, parse: string -> Option<real>): Result<seq<Row>, ReadError>
    requires i <= |lines|
    decreases |lines| - i
  {
    if i == |lines| then Success([])
    else match ParseRow(lines[i], parse)
      case Failure(e) => Failure(BadLine(i, e))
      case Success(row) =>
        match ParseFrom(lines, i + 1, parse)
        case Failure(e) => Failure(e)
        case Success(rest) => Success([row] + rest)
  }

  /** What `read_features(video_name, dir)` returns or raises, given the file contents. */
  function ReadResult(files: map<string, string>, videoName: string, dir: string,
                      parse: string -> Option<real>): Result<seq<Row>, ReadError>
  {
    var p := VideoPath(dir, videoName);
    if p !in files then Failure(MissingFile(p))
    else ParseFrom(SplitLines(files[p]), 0, parse)
  }

  /** `prefix` in front of a successful result. */
  function Prepend(prefix: seq<Row>, r: Result<seq<Row>, ReadError>): Result<seq<Row>, ReadError> {
    match r
    case Success(rows) => Success(prefix + rows)
    case Failure(e) => Failure(e)
  }

  lemma PrependNothing(r: Result<seq<Row>, ReadError>)
    ensures Prepend([], r) == r
  {
    if r.Success? {
      assert [] + r.value == r.value;
    }
  }

  /** One more parsed line moves from the unread rest to the prefix. */
  lemma PrependStep(lines: seq<string>, i: nat, parse: string -> Option<real>, prefix: seq<Row>, row: Row)
    requires i < |lines| && ParseRow(lines[i], parse) == Success(row)
    ensures Prepend(prefix, ParseFrom(lines, i, parse)) == Prepend(prefix + [row], ParseFrom(lines, i + 1, parse))
  {
    match ParseFrom(lines, i + 1, parse)
    case Failure(e) =>
    case Success(rest) =>
      assert prefix + ([row] + rest) == (prefix + [row]) + rest;
  }

  /** A line that fails ends the parse with that line's error, whatever came before it. */
  lemma PrependFailure(lines: seq<string>, i: nat, parse: string -> Option<real>, prefix: seq<Row>)
    requires i < |lines| && ParseRow(lines[i], parse).Failure?
    ensures Prepend(prefix, ParseFrom(lines, i, parse)) == Failure(BadLine(i, ParseRow(lines[i], parse).error))
  {
  }

  /** The loop of `read_features`: fill a preallocated `lines x RowWidth` array line by line. */
  method ParseLines(lines: seq<string>, parse: string -> Option<real>) returns (r: Result<seq<Row>, ReadError>)
    ensures r == ParseFrom(lines, 0, parse)
  {
    var features := new Row[|lines|](_ => Zeros(RowWidth));
    ghost var whole := ParseFrom(lines, 0, parse);
    PrependNothing(whole);
    assert features[..0] == [];
    var i := 0;
    while i < |lines|
      invariant 0 <= i <= |lines|
      invariant whole == Prepend(features[..i], ParseFrom(lines, i, parse))
    {
      var row := ParseRow(lines[i], parse);
      if row.Failure? {
        PrependFailure(lines, i, parse, features[..i]);
        return Failure(BadLine(i, row.error));
      }
      ghost var done := features[..i];
      PrependStep(lines, i, parse, done, row.value);
      features[i] := row.value;
      assert features[..i + 1] == done + [row.value];
      i := i + 1;
    }
    assert features[..i] + [] == features[..];
    return Success(features[..]);
  }

  /** `read_features`: a missing file raises; otherwise the file's lines are parsed. */
  method ReadFeatures(fs: FileSystem, videoName: string, dir: string, parse: string -> Option<real>)
    returns (r: Result<seq<Row>, ReadError>)
    ensures r == ReadResult(fs.files, videoName, dir, parse)
    ensures VideoPath(dir, videoName) !in fs.files ==> r == Failure(MissingFile(VideoPath(dir, videoName)))
  {
    var p := VideoPath(dir, videoName);
    if p !in fs.files {
      return Failure(MissingFile(p));
    }
    r := ParseLines(SplitLines(fs.files[p]), parse);
  }

  // ---------------------------------------------------------------------------
  // Properties of reading

  /** A successful read has one row per line of the file, each `RowWidth` wide. */
  lemma {:induction false} ParseFromShape(lines: seq<string>, i: nat, parse: string -> Option<real>)
    requires i <= |lines|
    ensures ParseFrom(lines, i, parse).Success? ==>
      |ParseFrom(lines, i, parse).value| == |lines| - i && HasWidth(ParseFrom(lines, i, parse).value, RowWidth)
    decreases |lines| - i
  {
    if i < |lines| {
      ParseFromShape(lines, i + 1, parse);
    }
  }

  /** What one line becomes: an unparsable token fails the line; otherwise a line of exactly
      `RowWidth` values is that row, a single value is broadcast over the row, and any other
      count (2048 included) is rejected, since the array is always `RowWidth` wide. */
  lemma ParseRowCases(line: string, parse: string -> Option<real>)
    ensures ParseRow(line, parse) == Failure(Unparsable) <==>
      exists k :: 0 <= k < |Split(line)| && parse(Split(line)[k]).None?
    ensures (forall k :: 0 <= k < |Split(line)| ==> parse(Split(line)[k]).Some?) ==>
      if |Split(line)| == RowWidth then
        ParseRow(line, parse).Success? &&
        forall j :: 0 <= j < RowWidth ==> ParseRow(line, parse).value[j] == parse(Split(line)[j]).value
      else if |Split(line)| == 1 then
        ParseRow(line, parse) == Success(seq(RowWidth, _ => parse(Split(line)[0]).value))
      else
        ParseRow(line, parse) == Failure(BadWidth(|Split(line)|))
  {
    var ts := Split(line);
    ParseTokensValues(ts, parse);
    if ParseTokens(ts, parse).None? {
      assert ParseRow(line, parse) == Failure(Unparsable);
      assert !forall k :: 0 <= k < |ts| ==> parse(ts[k]).Some?;
      var k :| 0 <= k < |ts| && !parse(ts[k]).Some?;
      assert parse(Split(line)[k]).None?;
    } else {
      assert ParseRow(line, parse) != Failure(Unparsable);
    }
  }

  /** One written line parses back to its row when the row is `RowWidth` wide and `parse`
      undoes `format` on its values. */
  lemma ParseFormattedRow(row: Row, format: real -> Token, parse: string -> Option<real>)
    requires |row| == RowWidth
    requires forall j :: 0 <= j < |row| ==> parse(format(row[j])) == Some(row[j])
    ensures ParseRow(Join(FormatRow(row, format)), parse) == Success(row)
  {
    var ts := FormatRow(row, format);
    assert AllSpaceFree(ts);
    SplitJoin(ts);
    ParseTokensValues(ts, parse);
    var parsed := ParseTokens(ts, parse);
    assert parsed.Some?;
    assert parsed.value == row;
  }

  /** Reading the text of `rows` back gives `rows`, provided every row is `RowWidth` wide and
      `parse` undoes `format` on the values written. */
  lemma {:induction false} ParseRendered(rows: seq<Row>, i: nat, format: real -> Token, parse: string -> Option<real>)
    requires i <= |rows|
    requires HasWidth(rows, RowWidth)
    requires forall k, j :: 0 <= k < |rows| && 0 <= j < |rows[k]| ==> parse(format(rows[k][j])) == Some(rows[k][j])
    ensures ParseFrom(seq(|rows|, k requires 0 <= k < |rows| => Join(FormatRow(rows[k], format))), i, parse)
         == Success(rows[i..])
    decreases |rows| - i
  {
    var lines := seq(|rows|, k requires 0 <= k < |rows| => Join(FormatRow(rows[k], format)));
    if i < |rows| {
      ParseFormattedRow(rows[i], format, parse);
      assert ParseRow(lines[i], parse) == Success(rows[i]);
      ParseRendered(rows, i + 1, format, parse);
      assert rows[i..] == [rows[i]] + rows[i + 1..];
    }
  }

  /** The file a dump writes reads back as the dumped segments: a line-and-token round trip,
      when the features are 4096 wide and `parse` undoes `format`. */
  lemma DumpReadRoundTrip(buffer: map<int, Row>, format: real -> Token, parse: string -> Option<real>,
                          files: map<string, string>, videoName: string, dir: string)
    requires |buffer| >= 1 && Uniform(buffer) && Width(buffer) == RowWidth
    requires forall k, j :: 0 <= k < SegmentCount && 0 <= j < RowWidth ==>
      parse(format(SegmentsOf(buffer)[k][j])) == Some(SegmentsOf(buffer)[k][j])
    ensures ReadResult(files[VideoPath(dir, videoName) := FileText(SegmentsOf(buffer), format)], videoName, dir, parse)
         == Success(SegmentsOf(buffer))
  {
    var segs := SegmentsOf(buffer);
    var lines := seq(|segs|, k requires 0 <= k < |segs| => Join(FormatRow(segs[k], format)));
    forall k | 0 <= k < |lines|
      ensures NoLineBreak(lines[k])
    {
      JoinTokensNoLineBreak(FormatRow(segs[k], format));
    }
    SplitLinesRender(lines);
    ParseRendered(segs, 0, format, parse);
    assert segs[0..] == segs;
  }
}

/**
 * The text layer of the feature files: a row is its tokens joined by single
 * spaces, a file is its lines each followed by a newline. Reading splits the
 * text with Python's `str.splitlines` and each line with `str.split(' ')`.
 */
module FeatureText {

  /** The characters Python's `str.splitlines` treats as line boundaries. */
  predicate IsLineBreak(c: char) {
    c == '\n' || c == '\r' || c == '\U{B}' || c == '\U{C}' || c == '\U{1C}' || c == '\U{1D}'
    || c == '\U{1E}' || c == '\U{85}' || c == '\U{2028}' || c == '\U{2029}'
  }

  predicate IsSpace(c: char) { c == ' ' }

  /** A token may hold anything but the two separators of the format. */
  predicate IsToken(t: string) {
    forall i :: 0 <= i < |t| ==> !IsSpace(t[i]) && !IsLineBreak(t[i])
  }

  /** What `str(x)` may produce for a float: never a space or a line break. */
  type Token = t: string | IsToken(t) witness "0"

  predicate NoLineBreak(s: string) {
    forall i :: 0 <= i < |s| ==> !IsLineBreak(s[i])
  }

  /** Index of the first character of `s` satisfying `p`, or `|s|` if none does. */
  function FirstWhere(s: string, p: char -> bool): (i: nat)
    ensures i <= |s|
    ensures forall k :: 0 <= k < i ==> !p(s[k])
    ensures i < |s| ==> p(s[i])
  {
    if s == [] then 0
    else if p(s[0]) then 0
    else 1 + FirstWhere(s[1..], p)
  }

  /** Python's `s.split(' ')`: every single space separates two fields, empty fields are kept. */
  function Split(s: string): (r: seq<string>)
    ensures |r| >= 1
    ensures forall k :: 0 <= k < |r| ==> forall i :: 0 <= i < |r[k]| ==> !IsSpace(r[k][i])
    decreases |s|
  {
    var i := FirstWhere(s, IsSpace);
    if i == |s| then [s] else [s[..i]] + Split(s[i + 1..])
  }

  /** Python's `' '.join(ts)`. */
  function Join(ts: seq<string>): string
  {
    if |ts| == 0 then ""
    else if |ts| == 1 then ts[0]
    else ts[0] + " " + Join(ts[1..])
  }

  predicate AllSpaceFree(ts: seq<string>) {
    forall k :: 0 <= k < |ts| ==> forall i :: 0 <= i < |ts[k]| ==> !IsSpace(ts[k][i])
  }

  /** Splitting a joined row gives back its tokens exactly when the row is not empty:
      an empty row is written as an empty line, which reads back as one empty token. */
  lemma {:induction false} SplitJoin(ts: seq<string>)
    requires AllSpaceFree(ts)
    ensures Split(Join(ts)) == ts <==> ts != []
    ensures ts == [] ==> Split(Join(ts)) == [""]
    decreases |ts|
  {
    if |ts| == 0 {
      assert Split("") == [""];
    } else if |ts| == 1 {
      assert FirstWhere(ts[0], IsSpace) == |ts[0]|;
    } else {
      var s := Join(ts);
      var rest := Join(ts[1..]);
      assert s == ts[0] + (" " + rest);
      assert FirstWhere(s, IsSpace) == |ts[0]| by {
        FirstWhereAfterPrefix(ts[0], " " + rest, IsSpace);
      }
      assert s[..|ts[0]|] == ts[0];
      assert s[|ts[0]| + 1..] == rest;
      SplitJoin(ts[1..]);
      assert Split(s) == [ts[0]] + ts[1..];
    }
  }

  /** Joining the fields of any line gives back the line. */
  lemma {:induction false} JoinSplit(s: string)
    ensures Join(Split(s)) == s
    decreases |s|
  {
    var i := FirstWhere(s, IsSpace);
    if i < |s| {
      JoinSplit(s[i + 1..]);
      var tail := Split(s[i + 1..]);
      assert Split(s) == [s[..i]] + tail;
      assert Join(Split(s)) == s[..i] + " " + Join(tail);
      assert s == s[..i] + " " + s[i + 1..];
    }
  }

  /** If `a` has no character satisfying `p` and `b` starts with one, the first match in `a + b` is at `|a|`. */
  lemma FirstWhereAfterPrefix(a: string, b: string, p: char -> bool)
    requires forall i :: 0 <= i < |a| ==> !p(a[i])
    requires |b| > 0 && p(b[0])
    ensures FirstWhere(a + b, p) == |a|
  {
    var s := a + b;
    assert forall k :: 0 <= k < |a| ==> s[k] == a[k];
    assert s[|a|] == b[0];
  }

  /** A file: each line followed by a newline. */
  function RenderLines(lines: seq<string>): (r: string)
    ensures r == "" <==> lines == []
    ensures lines != [] ==> r[|r| - 1] == '\n'
  {
    if lines == [] then "" else lines[0] + "\n" + RenderLines(lines[1..])
  }

  /** Python's `s.splitlines()`: no trailing empty line, `\r\n` counts as one boundary. */
  function SplitLines(s: string): (r: seq<string>)
    ensures forall k :: 0 <= k < |r| ==> NoLineBreak(r[k])
    decreases |s|
  {
    if s == "" then []
    else
      var i := FirstWhere(s, IsLineBreak);
      if i == |s| then [s]
      else
        var next := if s[i] == '\r' && i + 1 < |s| && s[i + 1] == '\n' then i + 2 else i + 1;
        [s[..i]] + SplitLines(s[next..])
  }

  /** Reading back a rendered file gives its lines, whatever their number. */
  lemma {:induction false} SplitLinesRender(lines: seq<string>)
    requires forall k :: 0 <= k < |lines| ==> NoLineBreak(lines[k])
    ensures SplitLines(RenderLines(lines)) == lines
    decreases |lines|
  {
    if lines != [] {
      var rest := RenderLines(lines[1..]);
      var s := RenderLines(lines);
      assert s == lines[0] + ("\n" + rest);
      FirstWhereAfterPrefix(lines[0], "\n" + rest, IsLineBreak);
      assert s[..|lines[0]|] == lines[0];
      assert s[|lines[0]| + 1..] == rest;
      SplitLinesRender(lines[1..]);
    }
  }

  /** Appending one line to a rendered file renders the longer list: this is how
      a file written line by line ends up holding the whole list. */
  lemma {:induction false} RenderLinesSnoc(lines: seq<string>, line: string)
    ensures RenderLines(lines + [line]) == RenderLines(lines) + line + "\n"
    decreases |lines|
  {
    if lines != [] {
      assert (lines + [line])[1..] == lines[1..] + [line];
      RenderLinesSnoc(lines[1..], line);
    } else {
      assert RenderLines([line]) == line + "\n" + RenderLines([]);
    }
  }

  /** A row of tokens joined by spaces holds no line break. */
  lemma {:induction false} JoinTokensNoLineBreak(ts: seq<Token>)
    ensures NoLineBreak(Join(ts))
    decreases |ts|
  {
    if |ts| > 1 {
      JoinTokensNoLineBreak(ts[1..]);
      var s := Join(ts);
      assert s == ts[0] + " " + Join(ts[1..]);
      forall i | 0 <= i < |s| ensures !IsLineBreak(s[i]) {
        if i < |ts[0]| {
          assert s[i] == ts[0][i];
        } else if i > |ts[0]| {
          assert s[i] == Join(ts[1..])[i - |ts[0]| - 1];
        }
      }
    }
  }
}

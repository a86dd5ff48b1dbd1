/** The comment-tolerant pre-pass over a configuration file: the file is read
 *  line by line, every line whose whitespace-trimmed form starts with `//`
 *  is replaced by the empty string, and the pieces are joined back into one
 *  text for the strict JSON parser (the parser itself is not modelled). */
module ConfigText {

  /** The characters Python's `str.strip()` removes (`str.isspace()`). */
  predicate IsSpace(c: char)
  {
    || c == ' '
    || '\t' <= c <= '\r'
    || '\U{1C}' <= c <= '\U{1F}'
    || c == '\U{85}'
    || c == '\U{A0}'
    || c == '\U{1680}'
    || '\U{2000}' <= c <= '\U{200A}'
    || c == '\U{2028}'
    || c == '\U{2029}'
    || c == '\U{202F}'
    || c == '\U{205F}'
    || c == '\U{3000}'
  }

  /** Drops the leading whitespace. */
  function TrimStart(s: string): (r: string)
    ensures |r| <= |s|
    decreases |s|
  {
    if s != [] && IsSpace(s[0]) then TrimStart(s[1..]) else s
  }

  /** What remains is a suffix that starts with a non-space, and everything
   *  dropped was space. */
  lemma {:induction false} TrimStartSpec(s: string)
    ensures var r := TrimStart(s);
            && r == s[|s| - |r|..]
            && (r == [] || !IsSpace(r[0]))
            && forall i :: 0 <= i < |s| - |r| ==> IsSpace(s[i])
    decreases |s|
  {
    if s != [] && IsSpace(s[0]) {
      TrimStartSpec(s[1..]);
    }
  }

  /** Drops the trailing whitespace. */
  function TrimEnd(s: string): (r: string)
    ensures |r| <= |s|
    decreases |s|
  {
    if s != [] && IsSpace(s[|s| - 1]) then TrimEnd(s[..|s| - 1]) else s
  }

  /** What remains is a prefix that ends with a non-space and keeps every
   *  non-space character. */
  lemma {:induction false} TrimEndSpec(s: string)
    ensures var r := TrimEnd(s);
            && r == s[..|r|]
            && (r == [] || !IsSpace(r[|r| - 1]))
            && forall i :: 0 <= i < |s| && !IsSpace(s[i]) ==> i < |r|
    decreases |s|
  {
    if s != [] && IsSpace(s[|s| - 1]) {
      TrimEndSpec(s[..|s| - 1]);
    }
  }

  /** Python's `str.strip()`. */
  function Strip(s: string): string
  {
    TrimEnd(TrimStart(s))
  }

  predicate StartsWith(s: string, prefix: string)
  {
    |prefix| <= |s| && s[..|prefix|] == prefix
  }

  /** The test the loop applies to each line. */
  predicate IsCommentLine(line: string)
  {
    StartsWith(Strip(line), "//")
  }

  /** Only the leading whitespace matters: a line is a comment exactly when
   *  its first non-space characters are `//`. */
  lemma CommentLineIff(line: string)
    ensures IsCommentLine(line) <==> StartsWith(TrimStart(line), "//")
  {
    var t := TrimStart(line);
    var r := TrimEnd(t);
    TrimStartSpec(line);
    TrimEndSpec(t);
    if StartsWith(t, "//") {
      assert !IsSpace(t[1]);
      assert |r| >= 2;
      assert r[..2] == t[..2];
    }
    if StartsWith(r, "//") {
      assert t[..2] == r[..2];
    }
  }

  /** Joins the pieces, as `''.join(pieces)` does. */
  function Concat(pieces: seq<string>): string
    decreases |pieces|
  {
    if pieces == [] then [] else pieces[0] + Concat(pieces[1..])
  }

  lemma {:induction false} ConcatAppend(a: seq<string>, b: seq<string>)
    ensures Concat(a + b) == Concat(a) + Concat(b)
    decreases |a|
  {
    if a != [] {
      assert (a + b)[1..] == a[1..] + b;
      ConcatAppend(a[1..], b);
    } else {
      assert a + b == b;
    }
  }

  /** The length of the first line of a non-empty text, its `\n` included. */
  function LineLength(text: string): (k: nat)
    requires text != []
    ensures 0 < k <= |text|
    ensures forall i :: 0 <= i < k - 1 ==> text[i] != '\n'
    ensures k < |text| ==> text[k - 1] == '\n'
    decreases |text|
  {
    if text[0] == '\n' || |text| == 1 then 1 else 1 + LineLength(text[1..])
  }

  /** The lines `for line in in_file` yields: each one ends at and keeps its
   *  `\n`, only the last may lack one, and together they are the text. */
  function SplitLines(text: string): (lines: seq<string>)
    ensures Concat(lines) == text
    ensures forall k :: 0 <= k < |lines| ==> lines[k] != []
    ensures forall k, i :: 0 <= k < |lines| && 0 <= i < |lines[k]| - 1 ==> lines[k][i] != '\n'
    ensures forall k :: 0 <= k < |lines| - 1 ==> lines[k][|lines[k]| - 1] == '\n'
    decreases |text|
  {
    if text == [] then
      []
    else
      var k := LineLength(text);
      var rest := SplitLines(text[k..]);
      var lines := [text[..k]] + rest;
      assert lines[1..] == rest;
      assert forall j :: 1 <= j < |lines| ==> lines[j] == rest[j - 1];
      assert text[..k] + text[k..] == text;
      [text[..k]] + rest
  }

  /** The lines the pre-pass keeps, in their original order. */
  function Uncommented(lines: seq<string>): (r: seq<string>)
    ensures |r| <= |lines|
    decreases |lines|
  {
    if lines == [] then
      []
    else
      (if IsCommentLine(lines[0]) then [] else [lines[0]]) + Uncommented(lines[1..])
  }

  /** A line is kept exactly when it is in the file and is not a comment. */
  lemma {:induction false} UncommentedMembers(lines: seq<string>, l: string)
    ensures l in Uncommented(lines) <==> l in lines && !IsCommentLine(l)
    decreases |lines|
  {
    if lines != [] {
      assert lines == [lines[0]] + lines[1..];
      UncommentedMembers(lines[1..], l);
    }
  }

  lemma {:induction false} UncommentedAppend(a: seq<string>, b: seq<string>)
    ensures Uncommented(a + b) == Uncommented(a) + Uncommented(b)
    decreases |a|
  {
    if a != [] {
      assert (a + b)[1..] == a[1..] + b;
      UncommentedAppend(a[1..], b);
    } else {
      assert a + b == b;
    }
  }

  lemma {:induction false} UncommentedNoop(lines: seq<string>)
    requires forall l :: l in lines ==> !IsCommentLine(l)
    ensures Uncommented(lines) == lines
    decreases |lines|
  {
    if lines != [] {
      UncommentedNoop(lines[1..]);
    }
  }

  /** What one more line adds to the joined text. */
  lemma UncommentedSnoc(done: seq<string>, line: string)
    ensures Concat(Uncommented(done + [line])) == Concat(Uncommented(done)) + (if IsCommentLine(line) then "" else line)
  {
    UncommentedAppend(done, [line]);
    assert [line][1..] == [];
    var tail := if IsCommentLine(line) then [] else [line];
    assert Uncommented([line]) == tail + Uncommented([]);
    assert Uncommented([line]) == tail;
    ConcatAppend(Uncommented(done), tail);
    if IsCommentLine(line) {
      assert Concat(tail) == "";
    } else {
      assert Concat(tail) == line + Concat([]);
      assert Concat(tail) == line;
    }
  }

  lemma ConcatSnoc(pieces: seq<string>, piece: string)
    ensures Concat(pieces + [piece]) == Concat(pieces) + piece
  {
    ConcatAppend(pieces, [piece]);
    assert Concat([piece]) == piece + Concat([]);
  }

  /** The line loop of `_load_json_with_comments`: comment lines contribute
   *  the empty string, every other line is kept verbatim, and the pieces are
   *  joined. */
  method StripComments(lines: seq<string>) returns (text: string)
    ensures text == Concat(Uncommented(lines))
  {
    var jsonLines: seq<string> := [];
    for i := 0 to |lines|
      invariant Concat(jsonLines) == Concat(Uncommented(lines[..i]))
    {
      var line := lines[i];
      var li := Strip(line);
      var piece := if StartsWith(li, "//") then "" else line;
      assert lines[..i + 1] == lines[..i] + [line];
      UncommentedSnoc(lines[..i], line);
      ConcatSnoc(jsonLines, piece);
      jsonLines := jsonLines + [piece];
    }
    assert lines[..|lines|] == lines;
    text := Concat(jsonLines);
  }

  /** A comment line disappears completely, its newline included, and the
   *  lines around it are joined as if it had never been there. */
  lemma CommentLineVanishes(before: seq<string>, line: string, after: seq<string>)
    requires IsCommentLine(line)
    ensures Concat(Uncommented(before + [line] + after)) == Concat(Uncommented(before)) + Concat(Uncommented(after))
  {
    UncommentedAppend(before + [line], after);
    UncommentedAppend(before, [line]);
    assert Uncommented([line]) == [];
    assert Uncommented(before) + [] == Uncommented(before);
    ConcatAppend(Uncommented(before), Uncommented(after));
  }

  /** A file without comment lines reaches the parser unchanged. */
  lemma CommentFreeTextUnchanged(text: string)
    requires forall l :: l in SplitLines(text) ==> !IsCommentLine(l)
    ensures Concat(Uncommented(SplitLines(text))) == text
  {
    UncommentedNoop(SplitLines(text));
  }

  /** The shape of the lines file iteration yields: none is empty, `\n`
   *  occurs only as a line's last character, and every line but the last
   *  ends with one. */
  predicate LineShaped(lines: seq<string>)
  {
    && (forall k :: 0 <= k < |lines| ==> lines[k] != [] && forall i :: 0 <= i < |lines[k]| - 1 ==> lines[k][i] != '\n')
    && (forall k :: 0 <= k < |lines| - 1 ==> lines[k][|lines[k]| - 1] == '\n')
  }

  /** Lines of that shape are split back exactly as they were joined. */
  lemma {:induction false} SplitConcat(lines: seq<string>)
    requires LineShaped(lines)
    ensures SplitLines(Concat(lines)) == lines
    decreases |lines|
  {
    if lines != [] {
      var text := Concat(lines);
      var first := lines[0];
      assert text == first + Concat(lines[1..]);
      var k := LineLength(text);
      assert forall i :: 0 <= i < |first| ==> text[i] == first[i];
      if |lines| == 1 {
        assert Concat(lines[1..]) == [];
        assert text == first;
      } else {
        assert first[|first| - 1] == '\n';
      }
      assert k == |first|;
      assert text[..k] == first;
      assert text[k..] == Concat(lines[1..]);
      assert LineShaped(lines[1..]) by {
        assert forall k :: 0 <= k < |lines| - 1 ==> lines[1..][k] == lines[k + 1];
      }
      SplitConcat(lines[1..]);
      assert lines == [first] + lines[1..];
    }
  }

  /** Dropping the comment lines keeps that shape: a kept line that is not
   *  the last kept one was not the file's last line either. */
  lemma {:induction false} UncommentedShaped(lines: seq<string>)
    requires LineShaped(lines)
    ensures LineShaped(Uncommented(lines))
    decreases |lines|
  {
    if lines != [] {
      assert LineShaped(lines[1..]) by {
        assert forall k :: 0 <= k < |lines| - 1 ==> lines[1..][k] == lines[k + 1];
      }
      UncommentedShaped(lines[1..]);
      var rest := Uncommented(lines[1..]);
      if !IsCommentLine(lines[0]) {
        var kept := [lines[0]] + rest;
        assert Uncommented(lines) == kept;
        assert forall k :: 1 <= k < |kept| ==> kept[k] == rest[k - 1];
        if |lines| == 1 {
          assert rest == [];
        }
      }
    }
  }

  /** `_load_json_with_comments` up to the parser: iterate the file's lines
   *  and drop the comment lines. */
  method LoadJsonWithComments(fileText: string) returns (jsonText: string)
    ensures jsonText == Concat(Uncommented(SplitLines(fileText)))
  {
    var lines := SplitLines(fileText);
    jsonText := StripComments(lines);
  }

  /** The parser receives exactly the file's non-comment lines, line for
   *  line, and none of them is a comment, so the pre-pass applied to its own
   *  output changes nothing. */
  lemma StrippedTextIsCommentFree(fileText: string)
    ensures var once := Concat(Uncommented(SplitLines(fileText)));
            && SplitLines(once) == Uncommented(SplitLines(fileText))
            && (forall l :: l in SplitLines(once) ==> !IsCommentLine(l))
            && Concat(Uncommented(SplitLines(once))) == once
  {
    var lines := SplitLines(fileText);
    var kept := Uncommented(lines);
    UncommentedShaped(lines);
    SplitConcat(kept);
    forall l | l in kept
      ensures !IsCommentLine(l)
    {
      UncommentedMembers(lines, l);
    }
    UncommentedNoop(kept);
  }
}

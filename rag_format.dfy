/** RAG-With-Dockling: `process_response`, which prepares a model answer for display:
    code fences become HTML code blocks, and bullet and numbered lines are restyled
    one by one. */
module RagFormat {
  import opened PyStr

  const Fence := "```"
  const PythonFence := "```python"
  const CodeOpen := "<pre><code class=\"language-python\">"
  const CodeClose := "</code></pre>"
  const BulletMark := "- "
  const Bullet := "• "
  const NumberEnd := ". "

  /** The code-fence rewrite: only when the text holds a fence, every ```python
      becomes an opening code tag, then every remaining fence a closing one. No
      fence is left afterwards, and the line feeds are kept. */
  function RewriteFences(text: string): (r: string)
    ensures !Contains(text, Fence) ==> r == text
    ensures !Contains(r, Fence)
    ensures CountChar(r, '\n') == CountChar(text, '\n')
  {
    if Contains(text, Fence) then
      var tagged := Replace(text, PythonFence, CodeOpen);
      ReplaceLeavesNoFence(tagged, CodeClose);
      ReplaceKeepsCount(text, PythonFence, CodeOpen, '\n');
      ReplaceKeepsCount(tagged, Fence, CodeClose, '\n');
      Replace(tagged, Fence, CodeClose)
    else text
  }

  /** A ```python fence and the fence that closes it become the opening and the
      closing code tags; the code between them and the text around them are kept. */
  lemma CodeBlockTags(pre: string, code: string, post: string)
    requires '`' !in pre && '`' !in code && '`' !in post
    requires !StartsWith(post, "python")
    ensures RewriteFences(pre + PythonFence + code + Fence + post)
      == pre + CodeOpen + code + CodeClose + post
  {
    var rest := code + Fence + post;
    var text := pre + PythonFence + code + Fence + post;
    assert text == pre + PythonFence + rest;
    HasFence(pre, rest);
    OpenTag(pre, code, post);
    var tagged := Replace(text, PythonFence, CodeOpen);
    var head := pre + CodeOpen + code;
    assert tagged == head + Fence + post;
    CodeOpenPlain();
    assert '`' !in head;
    CloseTag(head, post);
    assert RewriteFences(text) == Replace(tagged, Fence, CodeClose);
  }

  /** The opening tag holds no backtick. */
  lemma CodeOpenPlain()
    ensures '`' !in CodeOpen
  {
  }

  /** A text with ```python after a backtick-free prefix holds a fence. */
  lemma HasFence(pre: string, rest: string)
    ensures Contains(pre + PythonFence + rest, Fence)
  {
    var text := pre + PythonFence + rest;
    assert text[|pre|..|pre| + 3] == Fence;
    assert OccursAt(text, Fence, |pre|);
  }

  /** The first pass turns the ```python fence into the opening tag. */
  lemma OpenTag(pre: string, code: string, post: string)
    requires '`' !in pre && '`' !in code && '`' !in post
    requires !StartsWith(post, "python")
    ensures Replace(pre + PythonFence + (code + Fence + post), PythonFence, CodeOpen)
      == pre + CodeOpen + code + Fence + post
  {
    var close := Fence + post;
    var rest := code + close;
    NoPythonFenceAfterClose(post);
    assert Replace(close, PythonFence, CodeOpen) == close;
    ReplaceSkip(code, close, PythonFence, CodeOpen);
    assert Replace(rest, PythonFence, CodeOpen) == rest;
    assert code + Fence + post == rest;
    ReplaceFirst(pre, rest, PythonFence, CodeOpen);
    assert pre + CodeOpen + rest == pre + CodeOpen + code + Fence + post;
  }

  /** The second pass turns the remaining fence into the closing tag. */
  lemma CloseTag(head: string, post: string)
    requires '`' !in head && '`' !in post
    ensures Replace(head + Fence + post, Fence, CodeClose) == head + CodeClose + post
  {
    ReplaceFirst(head, post, Fence, CodeClose);
    ReplaceNone(post, Fence, CodeClose);
  }

  /** A closing fence followed by backtick-free text that does not start with
      "python" holds no ```python. */
  lemma NoPythonFenceAfterClose(post: string)
    requires '`' !in post && !StartsWith(post, "python")
    ensures forall j :: !OccursAt(Fence + post, PythonFence, j)
  {
    var s := Fence + post;
    forall j | 0 <= j && j + 9 <= |s| ensures !OccursAt(s, PythonFence, j) {
      if j == 0 {
        assert s[3..9] == post[..6];
        assert s[..9][3..9] == s[3..9];
        assert PythonFence[3..9] == "python";
      } else {
        assert s[j + 2] == post[j - 1];
        assert s[j..j + 9][2] == s[j + 2] != PythonFence[2];
      }
    }
  }


  /** `line.strip().startswith('- ')`. */
  predicate IsBullet(line: string) {
    StartsWith(Strip(line), BulletMark)
  }

  /** `line.strip() and line.strip()[0].isdigit() and '. ' in line`. */
  predicate IsNumbered(line: string) {
    Strip(line) != [] && IsDigit(Strip(line)[0]) && Contains(line, NumberEnd)
  }

  /** One line as `process_response` leaves it: a bullet line loses its indentation
      and gets a bullet sign; a numbered line is split at its first ". " and its
      number set in bold; any other line is kept. */
  function FormatLine(line: string): (r: string)
    ensures IsBullet(line) ==> StartsWith(r, Bullet) && |r| == |Strip(line)|
    ensures !IsBullet(line) && IsNumbered(line) ==> StartsWith(r, "<strong>") && |r| == |line| + 17
    ensures !IsBullet(line) && !IsNumbered(line) ==> r == line
  {
    if IsBullet(line) then Bullet + Strip(line)[2..]
    else if IsNumbered(line) then
      var k := Find(line, NumberEnd);
      "<strong>" + line[..k] + ".</strong> " + line[k + 2..]
    else line
  }

  /** Every line formatted, in place. */
  function FormatLines(lines: seq<string>): (r: seq<string>)
    ensures |r| == |lines|
    ensures forall i :: 0 <= i < |lines| ==> r[i] == FormatLine(lines[i])
  {
    seq(|lines|, i requires 0 <= i < |lines| => FormatLine(lines[i]))
  }

  /** The text `process_response` returns. */
  function FormatResponse(text: string): string
  {
    Join(FormatLines(Split(RewriteFences(text), '\n')), '\n')
  }

  /** `process_response(text)`. */
  method ProcessResponse(text: string) returns (result: string)
    ensures result == FormatResponse(text)
  {
    var t := text;
    if Contains(t, Fence) {
      t := Replace(t, PythonFence, CodeOpen);
      t := Replace(t, Fence, CodeClose);
    }
    var lines := Split(t, '\n');
    ghost var original := lines;
    var i := 0;
    while i < |lines|
      invariant 0 <= i <= |lines| && |lines| == |original|
      invariant forall j :: 0 <= j < i ==> lines[j] == FormatLine(original[j])
      invariant forall j :: i <= j < |lines| ==> lines[j] == original[j]
    {
      var line := lines[i];
      if StartsWith(Strip(line), BulletMark) {
        lines := lines[i := Bullet + Strip(line)[2..]];
      } else if Strip(line) != [] && IsDigit(Strip(line)[0]) && Contains(line, NumberEnd) {
        var k := Find(line, NumberEnd);
        var num, content := line[..k], line[k + 2..];
        lines := lines[i := "<strong>" + num + ".</strong> " + content];
      }
      i := i + 1;
    }
    assert lines == FormatLines(original);
    result := Join(lines, '\n');
  }

  // ---------------------------------------------------------------------------
  // What process_response does

  /** Formatting a line never introduces a line feed. */
  lemma FormatLineNoNewline(line: string)
    requires '\n' !in line
    ensures '\n' !in FormatLine(line)
  {
    if IsBullet(line) {
      BulletNoNewline(line);
    } else if IsNumbered(line) {
      NumberedNoNewline(line);
    }
  }

  lemma BulletNoNewline(line: string)
    requires '\n' !in line && IsBullet(line)
    ensures '\n' !in Bullet + Strip(line)[2..]
  {
    var st := Strip(line);
    assert st == line[LeadingSpace(line)..LeadingSpace(line) + |st|];
    NoNewlineIn(line, LeadingSpace(line), LeadingSpace(line) + |st|);
    NoNewlineIn(st, 2, |st|);
  }

  lemma NumberedNoNewline(line: string)
    requires '\n' !in line && Contains(line, NumberEnd)
    ensures var k := Find(line, NumberEnd);
      '\n' !in "<strong>" + line[..k] + ".</strong> " + line[k + 2..]
  {
    var k := Find(line, NumberEnd);
    NoNewlineIn(line, 0, k);
    NoNewlineIn(line, k + 2, |line|);
  }

  lemma NoNewlineIn(s: string, a: nat, b: nat)
    requires a <= b <= |s| && '\n' !in s
    ensures '\n' !in s[a..b]
  {
    assert forall i :: 0 <= i < b - a ==> s[a..b][i] == s[a + i];
  }

  /** The result has as many lines as the input, and its line `i` is line `i` of the
      fence-rewritten input, formatted. */
  lemma LinesCorrespond(text: string)
    ensures |Split(RewriteFences(text), '\n')| == |Split(text, '\n')|
    ensures |Split(FormatResponse(text), '\n')| == |Split(RewriteFences(text), '\n')|
    ensures forall i :: 0 <= i < |Split(RewriteFences(text), '\n')| ==>
      Split(FormatResponse(text), '\n')[i] == FormatLine(Split(RewriteFences(text), '\n')[i])
  {
    var pieces := Split(RewriteFences(text), '\n');
    var formatted := FormatLines(pieces);
    forall k | 0 <= k < |formatted| ensures '\n' !in formatted[k] {
      FormatLineNoNewline(pieces[k]);
    }
    SplitJoin(formatted, '\n');
    SplitCount(RewriteFences(text), '\n');
    SplitCount(text, '\n');
  }

  /** Text without fences, bullet lines or numbered lines comes back unchanged. */
  lemma UnchangedWithoutRules(text: string)
    requires !Contains(text, Fence)
    requires forall i :: 0 <= i < |Split(text, '\n')| ==>
      !IsBullet(Split(text, '\n')[i]) && !IsNumbered(Split(text, '\n')[i])
    ensures FormatResponse(text) == text
  {
    assert FormatLines(Split(text, '\n')) == Split(text, '\n');
    JoinSplit(text, '\n');
  }

  /** An indented bullet line loses its indentation: only the bullet sign and the
      item's text remain. */
  lemma BulletLine(indent: string, item: string)
    requires IsBlank(indent) && item != [] && !IsSpace(item[|item| - 1])
    ensures FormatLine(indent + BulletMark + item) == Bullet + item
  {
    StripPadded(indent, BulletMark + item);
    assert indent + BulletMark + item == indent + (BulletMark + item);
  }

  /** A line `num. content`, with a number holding no space, has its number set in
      bold and its content kept. */
  lemma NumberedLine(num: string, content: string)
    requires num != [] && IsDigit(num[0]) && ' ' !in num
    ensures FormatLine(num + NumberEnd + content) == "<strong>" + num + ".</strong> " + content
  {
    var line := num + NumberEnd + content;
    assert line[0] == num[0];
    StripKeepsFirst(line);
    FirstNumberEnd(num, content);
    assert line[..|num|] == num;
    assert line[|num| + 2..] == content;
  }

  /** The first ". " of `num. content` is the one after the number. */
  lemma FirstNumberEnd(num: string, content: string)
    requires ' ' !in num
    ensures Find(num + NumberEnd + content, NumberEnd) == |num|
  {
    var line := num + NumberEnd + content;
    assert OccursAt(line, NumberEnd, |num|) by {
      assert line[|num|..|num| + 2] == NumberEnd;
    }
    forall j | 0 <= j < |num| ensures !OccursAt(line, NumberEnd, j) {
      assert line[j + 1] == if j + 1 < |num| then num[j + 1] else '.';
    }
  }

  /** A formatted line is left alone by a second pass. */
  lemma FormatLineIdempotent(line: string)
    ensures FormatLine(FormatLine(line)) == FormatLine(line)
  {
    var f := FormatLine(line);
    if f != line {
      FormattedStart(line);
      KeptAsIs(f);
    }
  }

  /** A line the formatter changes starts with the bullet sign or the bold tag. */
  lemma FormattedStart(line: string)
    requires FormatLine(line) != line
    ensures FormatLine(line) != [] && FormatLine(line)[0] in {'•', '<'}
  {
  }

  /** A line starting with neither whitespace, '-' nor a digit is kept. */
  lemma KeptAsIs(line: string)
    requires line != [] && !IsSpace(line[0]) && line[0] != '-' && !IsDigit(line[0])
    ensures FormatLine(line) == line
  {
    StripKeepsFirst(line);
  }

  /** Replacing every fence by a text without backticks leaves no fence. */
  lemma {:induction false} ReplaceLeavesNoFence(s: string, r: string)
    requires r != [] && '`' !in r
    ensures forall j :: !OccursAt(Replace(s, Fence, r), Fence, j)
    decreases |s|
  {
    if |s| < 3 {
    } else if s[..3] == Fence {
      ReplaceLeavesNoFence(s[3..], r);
      NoFenceAfterPrefix(r, Replace(s[3..], Fence, r));
    } else {
      ReplaceLeavesNoFence(s[1..], r);
      NoFenceAfterChar(s[0], Replace(s[1..], Fence, r));
      NoFenceAtStart(s, r);
    }
  }

  /** Prefixing a fence-free text with a backtick-free one makes no fence. */
  lemma NoFenceAfterPrefix(r: string, rest: string)
    requires r != [] && '`' !in r
    requires forall j :: !OccursAt(rest, Fence, j)
    ensures forall j :: !OccursAt(r + rest, Fence, j)
  {
    var o := r + rest;
    forall j | 0 <= j && j + 3 <= |o| ensures !OccursAt(o, Fence, j) {
      if j < |r| {
        assert o[j..j + 3][0] == r[j] != Fence[0];
      } else {
        assert o[j..j + 3] == rest[j - |r|..j - |r| + 3];
        assert !OccursAt(rest, Fence, j - |r|);
      }
    }
  }

  /** Prefixing a fence-free text with one character makes no fence after that character. */
  lemma NoFenceAfterChar(c: char, rest: string)
    requires forall j :: !OccursAt(rest, Fence, j)
    ensures forall j :: 1 <= j ==> !OccursAt([c] + rest, Fence, j)
  {
    var o := [c] + rest;
    forall j | 1 <= j && j + 3 <= |o| ensures !OccursAt(o, Fence, j) {
      assert o[j..j + 3] == rest[j - 1..j + 2];
      assert !OccursAt(rest, Fence, j - 1);
    }
  }

  /** A text that does not start with a fence does not start with one after the
      fences are replaced by a backtick-free text. */
  lemma NoFenceAtStart(s: string, r: string)
    requires r != [] && '`' !in r
    requires |s| >= 3 && s[..3] != Fence
    ensures !OccursAt(Replace(s, Fence, r), Fence, 0)
  {
    var o := Replace(s, Fence, r);
    var rest := Replace(s[1..], Fence, r);
    assert o == [s[0]] + rest;
    ReplaceHead(s[1..], Fence, r);
    if |rest| >= 2 && rest[0] == '`' {
      assert s[1] == '`';
      if |s| - 1 >= 3 {
        assert s[1..][..3] != Fence by {
          assert !OccursAt(s[1..], Fence, 0);
        }
        assert rest == [s[1]] + Replace(s[2..], Fence, r);
        ReplaceHead(s[2..], Fence, r);
      }
      assert rest[1] == '`' ==> s[2] == '`';
    }
    assert o[0] == s[0] && (|o| >= 3 ==> o[1] == rest[0] && o[2] == rest[1]);
  }

}

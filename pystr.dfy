/** The Python `str` operations the two applications rely on, over `seq<char>`
    (a Python string is a sequence of code points). */
module PyStr {

  /** `str.isspace` on one character, for the ASCII range: tab, line feed, vertical
      tab, form feed, carriage return, the separators 0x1C..0x1F and the space. */
  predicate IsSpace(c: char) {
    c == ' ' || ('\t' <= c <= '\r') || ('\U{1C}' <= c <= '\U{1F}')
  }

  /** `str.isdigit` on one character, for the ASCII digits. */
  predicate IsDigit(c: char) {
    '0' <= c <= '9'
  }

  predicate IsBlank(s: string) {
    forall i :: 0 <= i < |s| ==> IsSpace(s[i])
  }

  /** Number of whitespace characters at the front of `s`. */
  function LeadingSpace(s: string): (n: nat)
    ensures n <= |s|
    ensures forall i :: 0 <= i < n ==> IsSpace(s[i])
    ensures n < |s| ==> !IsSpace(s[n])
  {
    if s == [] || !IsSpace(s[0]) then 0 else 1 + LeadingSpace(s[1..])
  }

  /** Number of whitespace characters at the end of `s`. */
  function TrailingSpace(s: string): (n: nat)
    ensures n <= |s|
    ensures forall i :: |s| - n <= i < |s| ==> IsSpace(s[i])
    ensures n < |s| ==> !IsSpace(s[|s| - 1 - n])
  {
    if s == [] || !IsSpace(s[|s| - 1]) then 0 else 1 + TrailingSpace(s[..|s| - 1])
  }

  /** `str.strip()`: `s` without its leading and trailing whitespace. */
  function Strip(s: string): (r: string)
    ensures |r| <= |s|
    ensures LeadingSpace(s) + |r| <= |s| && r == s[LeadingSpace(s)..LeadingSpace(s) + |r|]
    ensures r == [] <==> IsBlank(s)
    ensures r != [] ==> !IsSpace(r[0]) && !IsSpace(r[|r| - 1])
    ensures forall i :: LeadingSpace(s) + |r| <= i < |s| ==> IsSpace(s[i])
  {
    var lead := LeadingSpace(s);
    var rest := s[lead..];
    var r := rest[..|rest| - TrailingSpace(rest)];
    StripCut(s, rest, r);
    StripBlank(s, rest, r);
    r
  }

  /** The strip keeps a slice of `s`. */
  lemma StripCut(s: string, rest: string, r: string)
    requires rest == s[LeadingSpace(s)..] && r == rest[..|rest| - TrailingSpace(rest)]
    ensures LeadingSpace(s) + |r| <= |s| && r == s[LeadingSpace(s)..LeadingSpace(s) + |r|]
    ensures forall i :: LeadingSpace(s) + |r| <= i < |s| ==> IsSpace(s[i])
  {
    var lead := LeadingSpace(s);
    var t := TrailingSpace(rest);
    StripTail(s, lead, rest, t);
  }

  /** What the strip cuts after its result is whitespace. */
  lemma StripTail(s: string, lead: nat, rest: string, t: nat)
    requires lead <= |s| && rest == s[lead..] && t <= |rest|
    requires forall j :: |rest| - t <= j < |rest| ==> IsSpace(rest[j])
    ensures forall i :: lead + |rest| - t <= i < |s| ==> IsSpace(s[i])
  {
    forall i | lead + |rest| - t <= i < |s| ensures IsSpace(s[i]) {
      assert s[i] == rest[i - lead];
    }
  }

  /** The strip is empty exactly for a blank text, and otherwise has non-space ends. */
  lemma StripBlank(s: string, rest: string, r: string)
    requires rest == s[LeadingSpace(s)..] && r == rest[..|rest| - TrailingSpace(rest)]
    ensures r == [] <==> IsBlank(s)
    ensures r != [] ==> !IsSpace(r[0]) && !IsSpace(r[|r| - 1])
  {
    var lead := LeadingSpace(s);
    if |rest| > 0 {
      assert rest[0] == s[lead];
    }
  }

  /** `str.startswith(p)`. */
  predicate StartsWith(s: string, p: string) {
    |p| <= |s| && s[..|p|] == p
  }

  /** `p` occurs in `s` at index `j`. */
  predicate OccursAt(s: string, p: string, j: int) {
    0 <= j && j + |p| <= |s| && s[j..j + |p|] == p
  }

  /** `s.find(p, i)`: the lowest index at or after `i` where `p` occurs, or -1. */
  function FindFrom(s: string, p: string, i: nat): (r: int)
    ensures r == -1 || (i <= r && r + |p| <= |s| && OccursAt(s, p, r))
    ensures forall j :: i <= j && (r == -1 || j < r) ==> !OccursAt(s, p, j)
    decreases |s| - i
  {
    if i + |p| > |s| then -1
    else if s[i..i + |p|] == p then i
    else FindFrom(s, p, i + 1)
  }

  /** `s.find(p)`. */
  function Find(s: string, p: string): (r: int)
    ensures r == -1 || (0 <= r && r + |p| <= |s| && OccursAt(s, p, r))
    ensures forall j :: 0 <= j && (r == -1 || j < r) ==> !OccursAt(s, p, j)
  {
    FindFrom(s, p, 0)
  }

  /** `p in s`. */
  predicate Contains(s: string, p: string) {
    Find(s, p) >= 0
  }

  /** `s.rfind(c)` for a one-character `c`: the highest index holding `c`, or -1. */
  function RFindChar(s: string, c: char): (r: int)
    ensures -1 <= r < |s|
    ensures r >= 0 ==> s[r] == c
    ensures forall j :: r < j < |s| ==> s[j] != c
  {
    if s == [] then -1
    else if s[|s| - 1] == c then |s| - 1
    else RFindChar(s[..|s| - 1], c)
  }

  /** `s.replace(p, r)` for a non-empty `p`: occurrences are replaced left to right,
      without overlap. */
  function Replace(s: string, p: string, r: string): (o: string)
    requires |p| > 0
    ensures (forall j :: !OccursAt(s, p, j)) ==> o == s
    decreases |s|
  {
    if |s| < |p| then s
    else if s[..|p|] == p then assert OccursAt(s, p, 0); r + Replace(s[|p|..], p, r)
    else
      assert forall j :: OccursAt(s[1..], p, j) ==> OccursAt(s, p, j + 1) by {
        forall j | OccursAt(s[1..], p, j) ensures OccursAt(s, p, j + 1) {
          assert s[1..][j..j + |p|] == s[j + 1..j + 1 + |p|];
        }
      }
      [s[0]] + Replace(s[1..], p, r)
  }

  /** Number of occurrences of `c` in `s`. */
  function CountChar(s: string, c: char): nat
  {
    if s == [] then 0 else (if s[0] == c then 1 else 0) + CountChar(s[1..], c)
  }

  /** `s.split(sep)` for a one-character separator: always at least one piece,
      and no piece holds the separator. */
  function Split(s: string, sep: char): (pieces: seq<string>)
    ensures |pieces| >= 1
    ensures forall k :: 0 <= k < |pieces| ==> sep !in pieces[k]
  {
    if s == [] then [[]]
    else
      var rest := Split(s[1..], sep);
      if s[0] == sep then [[]] + rest else [[s[0]] + rest[0]] + rest[1..]
  }

  /** `sep.join(pieces)`. */
  function Join(pieces: seq<string>, sep: char): string
  {
    if |pieces| == 0 then []
    else if |pieces| == 1 then pieces[0]
    else pieces[0] + [sep] + Join(pieces[1..], sep)
  }

  /** `"".join(parts)`, taken from the last part backwards. */
  function Concat(parts: seq<string>): string
  {
    if parts == [] then [] else Concat(parts[..|parts| - 1]) + parts[|parts| - 1]
  }

  /** `str.upper()` on one character, for the ASCII letters. */
  function UpperChar(c: char): char
  {
    if 'a' <= c <= 'z' then (c as int - 32) as char else c
  }

  /** `str.upper()`. */
  function Upper(s: string): (u: string)
    ensures |u| == |s|
    ensures forall i :: 0 <= i < |s| ==> u[i] == UpperChar(s[i])
  {
    seq(|s|, i requires 0 <= i < |s| => UpperChar(s[i]))
  }

  // ---------------------------------------------------------------------------
  // Properties

  /** Stripping twice changes nothing. */
  lemma StripIdempotent(s: string)
    ensures Strip(Strip(s)) == Strip(s)
  {
    var r := Strip(s);
    if r != [] {
      assert LeadingSpace(r) == 0;
      assert TrailingSpace(r) == 0;
    }
  }

  /** Stripping leading whitespace off a text that starts and ends with a
      non-whitespace character gives that text. */
  lemma StripPadded(ws: string, core: string)
    requires IsBlank(ws) && core != [] && !IsSpace(core[0]) && !IsSpace(core[|core| - 1])
    ensures Strip(ws + core) == core
  {
    var s := ws + core;
    assert forall i :: 0 <= i < |ws| ==> s[i] == ws[i];
    assert s[|ws|] == core[0];
    assert s[LeadingSpace(s)..] == core;
  }

  /** A text that starts with a non-whitespace character keeps it when stripped. */
  lemma StripKeepsFirst(s: string)
    requires s != [] && !IsSpace(s[0])
    ensures Strip(s) != [] && Strip(s)[0] == s[0]
  {
    assert LeadingSpace(s) == 0;
  }

  /** The first character of a replacement's result: the replacement text's when the
      pattern starts the string, the string's own otherwise. */
  lemma ReplaceHead(s: string, p: string, r: string)
    requires |p| > 0 && r != [] && s != []
    ensures Replace(s, p, r) != []
    ensures Replace(s, p, r)[0] == if OccursAt(s, p, 0) then r[0] else s[0]
  {
    if |s| >= |p| && s[..|p|] == p {
      assert OccursAt(s, p, 0);
    }
  }

  /** A prefix that holds no character starting the pattern is copied unchanged,
      and the scan resumes after it. */
  lemma {:induction false} ReplaceSkip(a: string, b: string, p: string, r: string)
    requires |p| > 0 && p[0] !in a
    ensures Replace(a + b, p, r) == a + Replace(b, p, r)
    decreases |a|
  {
    if a != [] {
      var s := a + b;
      assert s[0] == a[0] != p[0];
      if |s| < |p| {
        assert Replace(b, p, r) == b;
      } else {
        assert s[..|p|][0] == s[0];
        assert s[1..] == a[1..] + b;
        ReplaceSkip(a[1..], b, p, r);
        assert [a[0]] + a[1..] == a;
      }
    } else {
      assert a + b == b;
    }
  }

  /** An occurrence at the head is replaced, and the scan resumes after it. */
  lemma ReplaceAtHead(b: string, p: string, r: string)
    requires |p| > 0
    ensures Replace(p + b, p, r) == r + Replace(b, p, r)
  {
    assert (p + b)[..|p|] == p;
    assert (p + b)[|p|..] == b;
  }

  /** The first occurrence of the pattern, after a prefix that cannot start one, is
      replaced; the scan goes on with the rest. */
  lemma ReplaceFirst(a: string, b: string, p: string, r: string)
    requires |p| > 0 && p[0] !in a
    ensures Replace(a + p + b, p, r) == a + r + Replace(b, p, r)
  {
    assert a + p + b == a + (p + b);
    ReplaceSkip(a, p + b, p, r);
    ReplaceAtHead(b, p, r);
  }

  /** A text holding no character that starts the pattern is kept as it is. */
  lemma ReplaceNone(a: string, p: string, r: string)
    requires |p| > 0 && p[0] !in a
    ensures Replace(a, p, r) == a
  {
    ReplaceSkip(a, [], p, r);
    assert a + [] == a;
  }

  /** A concatenation is blank exactly when both of its halves are. */
  lemma BlankConcat(a: string, b: string)
    ensures IsBlank(a + b) <==> IsBlank(a) && IsBlank(b)
  {
    if IsBlank(a) && IsBlank(b) {
      forall i | 0 <= i < |a + b| ensures IsSpace((a + b)[i]) {
        if i >= |a| { assert (a + b)[i] == b[i - |a|]; }
      }
    }
    if IsBlank(a + b) {
      forall i | 0 <= i < |a| ensures IsSpace(a[i]) {
        assert (a + b)[i] == a[i];
      }
      forall i | 0 <= i < |b| ensures IsSpace(b[i]) {
        assert (a + b)[|a| + i] == b[i];
      }
    }
  }

  /** Concatenation distributes over splitting the parts. */
  lemma {:induction false} ConcatAppend(a: seq<string>, b: seq<string>)
    ensures Concat(a + b) == Concat(a) + Concat(b)
    decreases |b|
  {
    if b == [] {
      assert a + b == a;
    } else {
      var init := b[..|b| - 1];
      var last := b[|b| - 1];
      var ab := a + b;
      assert ab[..|ab| - 1] == a + init;
      assert ab[|ab| - 1] == last;
      assert Concat(ab) == Concat(a + init) + last;
      ConcatAppend(a, init);
    }
  }

  /** The concatenation is the parts before `i`, then part `i`, then the parts after it. */
  lemma {:induction false} ConcatSplit(parts: seq<string>, i: nat)
    requires i < |parts|
    ensures Concat(parts) == Concat(parts[..i]) + parts[i] + Concat(parts[i + 1..])
    decreases |parts|
  {
    var n := |parts| - 1;
    var init := parts[..n];
    if i == n {
      assert parts[i + 1..] == [];
    } else {
      ConcatSplit(init, i);
      var tail := parts[i + 1..];
      assert init[..i] == parts[..i] && init[i] == parts[i];
      assert tail[..|tail| - 1] == init[i + 1..] && tail[|tail| - 1] == parts[n];
      assert Concat(tail) == Concat(init[i + 1..]) + parts[n];
    }
  }

  /** The length of a concatenation is the sum of the lengths of its parts. */
  lemma {:induction false} ConcatLength(parts: seq<string>)
    ensures |Concat(parts)| == TotalLength(parts)
  {
    if parts != [] {
      ConcatLength(parts[..|parts| - 1]);
      TotalLengthSnoc(parts[..|parts| - 1], parts[|parts| - 1]);
      assert parts[..|parts| - 1] + [parts[|parts| - 1]] == parts;
    }
  }

  function TotalLength(parts: seq<string>): nat
  {
    if parts == [] then 0 else |parts[0]| + TotalLength(parts[1..])
  }

  lemma {:induction false} TotalLengthSnoc(parts: seq<string>, last: string)
    ensures TotalLength(parts + [last]) == TotalLength(parts) + |last|
  {
    if parts != [] {
      assert (parts + [last])[1..] == parts[1..] + [last];
      TotalLengthSnoc(parts[1..], last);
    }
  }

  /** Joining the pieces of a split gives the string back. */
  lemma {:induction false} JoinSplit(s: string, sep: char)
    ensures Join(Split(s, sep), sep) == s
  {
    if s != [] {
      JoinSplit(s[1..], sep);
      var rest := Split(s[1..], sep);
      if s[0] == sep {
        assert Split(s, sep) == [[]] + rest;
        assert ([[]] + rest)[1..] == rest;
      } else {
        var pieces := Split(s, sep);
        assert pieces == [[s[0]] + rest[0]] + rest[1..];
        if |rest| == 1 {
          assert pieces == [[s[0]] + rest[0]];
        } else {
          assert pieces[1..] == rest[1..];
          assert Join(rest, sep) == rest[0] + [sep] + Join(rest[1..], sep);
        }
      }
    }
  }

  /** Splitting `a + rest`, where `a` has no separator, glues `a` to the first piece of `rest`. */
  lemma {:induction false} SplitPrefix(a: string, rest: string, sep: char)
    requires sep !in a
    ensures Split(a + rest, sep) == [a + Split(rest, sep)[0]] + Split(rest, sep)[1..]
  {
    if a != [] {
      assert (a + rest)[1..] == a[1..] + rest;
      SplitPrefix(a[1..], rest, sep);
      assert [a[0]] + (a[1..] + Split(rest, sep)[0]) == a + Split(rest, sep)[0];
    } else {
      var pieces := Split(rest, sep);
      assert a + rest == rest;
      assert a + pieces[0] == pieces[0];
      assert pieces == [pieces[0]] + pieces[1..];
    }
  }

  /** Splitting a join of separator-free pieces gives the pieces back. */
  lemma {:induction false} SplitJoin(pieces: seq<string>, sep: char)
    requires |pieces| >= 1
    requires forall k :: 0 <= k < |pieces| ==> sep !in pieces[k]
    ensures Split(Join(pieces, sep), sep) == pieces
  {
    if |pieces| == 1 {
      SplitPrefix(pieces[0], [], sep);
      assert pieces[0] + [] == pieces[0];
    } else {
      SplitJoin(pieces[1..], sep);
      var tail := [sep] + Join(pieces[1..], sep);
      assert Join(pieces, sep) == pieces[0] + tail;
      SplitPrefix(pieces[0], tail, sep);
      assert tail[1..] == Join(pieces[1..], sep);
      assert Split(tail, sep) == [[]] + pieces[1..];
      assert pieces[0] + [] == pieces[0];
      assert pieces == [pieces[0]] + pieces[1..];
    }
  }

  /** A string splits into one more piece than it has separators. */
  lemma {:induction false} SplitCount(s: string, sep: char)
    ensures |Split(s, sep)| == CountChar(s, sep) + 1
  {
    if s != [] {
      SplitCount(s[1..], sep);
    }
  }

  /** Replacing a pattern by a text, neither holding `c`, keeps the number of `c`s. */
  lemma {:induction false} ReplaceKeepsCount(s: string, p: string, r: string, c: char)
    requires |p| > 0 && c !in p && c !in r
    ensures CountChar(Replace(s, p, r), c) == CountChar(s, c)
    decreases |s|
  {
    if |s| < |p| {
    } else if s[..|p|] == p {
      ReplaceKeepsCount(s[|p|..], p, r, c);
      CountAppend(r, Replace(s[|p|..], p, r), c);
      CountNone(r, c);
      CountAppend(p, s[|p|..], c);
      CountNone(p, c);
      assert s == p + s[|p|..];
    } else {
      ReplaceKeepsCount(s[1..], p, r, c);
      assert ([s[0]] + Replace(s[1..], p, r))[1..] == Replace(s[1..], p, r);
    }
  }

  lemma {:induction false} CountAppend(a: string, b: string, c: char)
    ensures CountChar(a + b, c) == CountChar(a, c) + CountChar(b, c)
  {
    if a != [] {
      assert (a + b)[1..] == a[1..] + b;
      CountAppend(a[1..], b, c);
    } else {
      assert a + b == b;
    }
  }

  lemma {:induction false} CountNone(a: string, c: char)
    requires c !in a
    ensures CountChar(a, c) == 0
  {
    if a != [] {
      CountNone(a[1..], c);
    }
  }
}

/** Resume-Enhancer: splitting resume text into named sections (`parse_resume_sections`).
    The language-model call is outside the model: its reply is a parameter. The regular
    expressions for the section headers are outside it too: their matches in the stripped
    text are a parameter, in the order the patterns found them. */
module ResumeSections {
  import opened Wrappers
  import opened PyStr
  import opened Dicts
  import opened Sorting
  import opened ResumeJson

  /** One header match: the section it names and the span of the header text. */
  datatype HeaderMatch = HeaderMatch(name: string, start: nat, end: nat)

  predicate MatchesWithin(ms: seq<HeaderMatch>, n: nat) {
    forall i :: 0 <= i < |ms| ==> ms[i].start <= ms[i].end <= n
  }

  /** The sort key of `section_matches.sort(key=lambda x: x['start'])`. */
  function StartKey(m: HeaderMatch): Key {
    Key(m.start, 0)
  }

  /** Shortest content a section must exceed to be kept. */
  const MinContentLength := 10
  /** Length of the preview kept when no section is found. */
  const PreviewLength := 1000
  const FullResume := "Full Resume"
  const RemainingContent := "Remaining Content"

  /** Python's `s[a:b]` for indices within `s`: empty when `a` is not below `b`. */
  function Slice(s: string, a: nat, b: nat): (r: string)
    requires a <= |s| && b <= |s|
    ensures a < b ==> r == s[a..b]
    ensures b <= a ==> r == []
  {
    if a <= b then s[a..b] else []
  }

  /** The stripped text from the end of header `i` to the start of header `i + 1`,
      or to the end of the text for the last header. */
  function SectionContent(text: string, ms: seq<HeaderMatch>, i: nat): (r: string)
    requires MatchesWithin(ms, |text|) && i < |ms|
    ensures i + 1 < |ms| && ms[i + 1].start <= ms[i].end ==> r == []
  {
    var stop := if i + 1 < |ms| then ms[i + 1].start else |text|;
    Strip(Slice(text, ms[i].end, stop))
  }

  /** A section's content is already stripped. */
  lemma SectionContentStripped(text: string, ms: seq<HeaderMatch>, i: nat)
    requires MatchesWithin(ms, |text|) && i < |ms|
    ensures Strip(SectionContent(text, ms, i)) == SectionContent(text, ms, i)
  {
    var stop := if i + 1 < |ms| then ms[i + 1].start else |text|;
    StripIdempotent(Slice(text, ms[i].end, stop));
  }

  predicate Substantial(content: string) {
    |content| > MinContentLength
  }

  /** Each header's name with its content, in the order given. */
  function HeaderContents(text: string, ms: seq<HeaderMatch>): (ps: seq<(string, string)>)
    requires MatchesWithin(ms, |text|)
    ensures |ps| == |ms|
    ensures forall i :: 0 <= i < |ms| ==> ps[i] == (ms[i].name, SectionContent(text, ms, i))
  {
    seq(|ms|, i requires 0 <= i < |ms| => (ms[i].name, SectionContent(text, ms, i)))
  }

  /** The sections dict after the loop has handled the headers of `ps`. */
  function CollectSections(ps: seq<(string, string)>): Dict<string, string>
  {
    if ps == [] then []
    else
      var d := CollectSections(ps[..|ps| - 1]);
      var (name, c) := ps[|ps| - 1];
      if Substantial(c) then Put(d, name, c) else d
  }

  lemma CollectStep(ps: seq<(string, string)>, i: nat)
    requires i < |ps|
    ensures CollectSections(ps[..i + 1]) ==
      if Substantial(ps[i].1) then Put(CollectSections(ps[..i]), ps[i].0, ps[i].1)
      else CollectSections(ps[..i])
  {
    assert ps[..i + 1][..i] == ps[..i];
  }

  /** What is kept when no header yields a section: the first 1000 characters as a
      preview and the rest separately, or the whole text when it is short. */
  function NoSectionsFallback(text: string): (r: Dict<string, string>)
    ensures |r| == if |text| > PreviewLength then 2 else 1
    ensures r[0].0 == FullResume && (|r| == 2 ==> r[1].0 == RemainingContent)
    ensures |text| <= PreviewLength ==> r[0].1 == text
    ensures |text| > PreviewLength ==> |r[0].1| == PreviewLength + 3
    ensures |text| > PreviewLength ==> r[0].1 == text[..PreviewLength] + "..." && r[1].1 == text[PreviewLength..]
  {
    if |text| > PreviewLength then
      [(FullResume, text[..PreviewLength] + "..."), (RemainingContent, text[PreviewLength..])]
    else [(FullResume, text)]
  }

  /** The pattern-based sections of the stripped text `text`. */
  function PatternSections(text: string, found: seq<HeaderMatch>): Dict<string, string>
    requires MatchesWithin(found, |text|)
  {
    var d := CollectSections(HeaderContents(text, SortMatches(found, text)));
    if d == [] then NoSectionsFallback(text) else d
  }

  /** `section_matches.sort(key=lambda x: x['start'])`; the sorted matches stay within the text. */
  function SortMatches(found: seq<HeaderMatch>, text: string): (ms: seq<HeaderMatch>)
    requires MatchesWithin(found, |text|)
    ensures MatchesWithin(ms, |text|)
    ensures multiset(ms) == multiset(found)
  {
    var ms := SortByKey(found, StartKey);
    assert forall i :: 0 <= i < |ms| ==> ms[i] in multiset(found);
    ms
  }

  /** The loop of `parse_resume_sections` over the sorted matches: keep each
      substantial content under its section name. */
  method CollectPatternSections(text: string, matches: seq<HeaderMatch>) returns (sections: Dict<string, string>)
    requires MatchesWithin(matches, |text|)
    ensures sections == CollectSections(HeaderContents(text, matches))
  {
    ghost var ps := HeaderContents(text, matches);
    sections := [];
    var i := 0;
    assert ps[..i] == [];
    while i < |matches|
      invariant 0 <= i <= |matches|
      invariant sections == CollectSections(ps[..i])
    {
      CollectStep(ps, i);
      var startPos := matches[i].end;
      var endPos := if i + 1 < |matches| then matches[i + 1].start else |text|;
      var content := Strip(Slice(text, startPos, endPos));
      assert ps[i] == (matches[i].name, content);
      if |content| > MinContentLength {
        sections := Put(sections, matches[i].name, content);
      }
      i := i + 1;
    }
    assert ps[..i] == ps;
  }

  /** The pattern-based part of `parse_resume_sections`: sort the matches by start,
      collect the sections, and fall back to the preview when nothing is kept. */
  method ParsePatternSections(text: string, found: seq<HeaderMatch>) returns (sections: Dict<string, string>)
    requires MatchesWithin(found, |text|)
    ensures sections == PatternSections(text, found)
  {
    var matches := SortMatches(found, text);
    sections := CollectPatternSections(text, matches);
    if sections == [] {
      if |text| > PreviewLength {
        sections := [(FullResume, text[..PreviewLength] + "...")];
        sections := sections + [(RemainingContent, text[PreviewLength..])];
      } else {
        sections := [(FullResume, text)];
      }
    }
  }

  // ---------------------------------------------------------------------------
  // What the pattern-based sections are

  /** The content of the last substantial header named `name`. */
  function LastSubstantial(ps: seq<(string, string)>, name: string): Option<string>
  {
    if ps == [] then None
    else if ps[|ps| - 1].0 == name && Substantial(ps[|ps| - 1].1) then Some(ps[|ps| - 1].1)
    else LastSubstantial(ps[..|ps| - 1], name)
  }

  /** The names of the substantial headers, repeats included. */
  function SubstantialNames(ps: seq<(string, string)>): seq<string>
  {
    if ps == [] then []
    else
      SubstantialNames(ps[..|ps| - 1])
        + (if Substantial(ps[|ps| - 1].1) then [ps[|ps| - 1].0] else [])
  }

  /** `s` with every repeat after the first occurrence dropped. */
  function FirstOccurrences<T(==)>(s: seq<T>): seq<T>
  {
    if s == [] then []
    else
      var d := FirstOccurrences(s[..|s| - 1]);
      if s[|s| - 1] in d then d else d + [s[|s| - 1]]
  }

  lemma {:induction false} FirstOccurrencesMembers<T>(s: seq<T>, x: T)
    ensures x in FirstOccurrences(s) <==> x in s
  {
    if s != [] {
      FirstOccurrencesMembers(s[..|s| - 1], x);
      assert s == s[..|s| - 1] + [s[|s| - 1]];
    }
  }

  /** A name matched more than once keeps the content of its last substantial match. */
  lemma {:induction false} CollectSectionsLastWins(ps: seq<(string, string)>, name: string)
    ensures Get(CollectSections(ps), name) == LastSubstantial(ps, name)
  {
    if ps != [] {
      var init := ps[..|ps| - 1];
      CollectSectionsLastWins(init, name);
      var (n, c) := ps[|ps| - 1];
      if Substantial(c) && n != name {
        PutOther(CollectSections(init), n, c, name);
      }
    }
  }

  /** Names appear in the order of their first substantial match, each once. */
  lemma {:induction false} CollectSectionsKeys(ps: seq<(string, string)>)
    ensures Keys(CollectSections(ps)) == FirstOccurrences(SubstantialNames(ps))
  {
    if ps != [] {
      var init := ps[..|ps| - 1];
      CollectSectionsKeys(init);
      var (n, c) := ps[|ps| - 1];
      var names := SubstantialNames(ps);
      if Substantial(c) {
        PutKeys(CollectSections(init), n, c);
        assert names[..|names| - 1] == SubstantialNames(init);
      } else {
        assert names == SubstantialNames(init);
      }
    }
  }

  /** Every kept section's content is longer than ten characters. */
  lemma {:induction false} LastSubstantialIsSubstantial(ps: seq<(string, string)>, name: string)
    requires LastSubstantial(ps, name).Some?
    ensures Substantial(LastSubstantial(ps, name).value)
    ensures (name, LastSubstantial(ps, name).value) in ps
  {
    if !(ps[|ps| - 1].0 == name && Substantial(ps[|ps| - 1].1)) {
      LastSubstantialIsSubstantial(ps[..|ps| - 1], name);
    }
  }

  /** The result is never empty, and the preview fallback is used exactly when no
      header yields a substantial section. */
  lemma PatternSectionsShape(text: string, found: seq<HeaderMatch>)
    requires MatchesWithin(found, |text|)
    ensures |PatternSections(text, found)| >= 1
    ensures
      var ps := HeaderContents(text, SortMatches(found, text));
      PatternSections(text, found) ==
        if SubstantialNames(ps) == [] then NoSectionsFallback(text) else CollectSections(ps)
  {
    var ps := HeaderContents(text, SortMatches(found, text));
    CollectSectionsKeys(ps);
    var names := SubstantialNames(ps);
    if names != [] {
      FirstOccurrencesMembers(names, names[0]);
    }
  }

  /** The preview and the remaining content together give the text back; the
      remaining content is there exactly when the text is longer than 1000 characters. */
  lemma FallbackReconstructs(text: string)
    ensures var fb := NoSectionsFallback(text);
      && Get(fb, FullResume).Some?
      && (Get(fb, RemainingContent).Some? <==> |text| > PreviewLength)
      && var full := Get(fb, FullResume).value;
         var rest := Get(fb, RemainingContent).GetOr([]);
         (if |text| > PreviewLength then full[..|full| - 3] else full) + rest == text
  {
    var fb := NoSectionsFallback(text);
    if |text| > PreviewLength {
      assert Get(fb, RemainingContent) == Some(text[PreviewLength..]);
      var full := text[..PreviewLength] + "...";
      assert full[..|full| - 3] == text[..PreviewLength];
    } else {
      assert Get(fb, RemainingContent) == None;
      assert text + [] == text;
    }
  }

  // ---------------------------------------------------------------------------
  // The AI branch: turning the decoded list of section objects into a dict

  /** A value Python can use as a dict key (lists and objects are unhashable). */
  predicate Hashable(j: Json) {
    !j.JArr? && !j.JObj?
  }

  /** A dict element holding both a 'section_name' and a 'content' entry. */
  predicate IsSectionObject(j: Json) {
    j.JObj? && "section_name" in j.fields && "content" in j.fields
  }

  /** The dict after the first `n` elements, or `None` once an unhashable section
      name has raised `TypeError`. */
  function AiSectionsFrom(items: seq<Json>, n: nat): (r: Option<Dict<Json, Json>>)
    requires n <= |items|
    ensures r.Some? ==> |r.value| <= n && DistinctKeys(r.value)
    ensures r.Some? ==> forall i :: 0 <= i < |r.value| ==> Hashable(r.value[i].0)
  {
    if n == 0 then Some([])
    else
      match AiSectionsFrom(items, n - 1)
      case None => None
      case Some(d) =>
        var obj := items[n - 1];
        if !IsSectionObject(obj) then Some(d)
        else if Hashable(obj.fields["section_name"]) then
          var name := obj.fields["section_name"];
          PutKeepsDistinct(d, name, obj.fields["content"]);
          PutKeys(d, name, obj.fields["content"]);
          PutHashable(d, name, obj.fields["content"]);
          Some(Put(d, name, obj.fields["content"]))
        else None
  }

  /** Assigning a hashable key keeps every key hashable. */
  lemma {:induction false} PutHashable(d: Dict<Json, Json>, name: Json, content: Json)
    requires Hashable(name) && forall i :: 0 <= i < |d| ==> Hashable(d[i].0)
    ensures forall i :: 0 <= i < |Put(d, name, content)| ==> Hashable(Put(d, name, content)[i].0)
  {
    if d != [] {
      var r := Put(d, name, content);
      if d[0].0 == name {
        assert r == [(name, content)] + d[1..];
        forall i | 0 < i < |r| ensures Hashable(r[i].0) {
          assert r[i] == d[i];
        }
      } else {
        var rest := Put(d[1..], name, content);
        assert forall i :: 0 <= i < |d[1..]| ==> d[1..][i] == d[i + 1];
        PutHashable(d[1..], name, content);
        assert r == [d[0]] + rest;
        forall i | 0 < i < |r| ensures Hashable(r[i].0) {
          assert r[i] == rest[i - 1];
        }
      }
    }
  }

  /** The AI branch's outcome for a decoded reply: the sections it returns, or `None`
      when `parse_resume_sections` goes on to pattern matching. */
  function AiSections(reply: Option<Json>): Option<Dict<Json, Json>>
  {
    if reply.None? || !reply.value.JArr? || reply.value.items == [] then None
    else
      var items := reply.value.items;
      match AiSectionsFrom(items, |items|)
      case Some(d) => if |d| >= 1 then Some(d) else None
      case None => None
  }

  /** Lines 441-450: convert the decoded list element by element. */
  method ConvertAiSections(reply: Option<Json>) returns (sections: Option<Dict<Json, Json>>)
    ensures sections == AiSections(reply)
  {
    if reply.None? || !reply.value.JArr? || reply.value.items == [] {
      return None;
    }
    var items := reply.value.items;
    var d: Dict<Json, Json> := [];
    var i := 0;
    while i < |items|
      invariant 0 <= i <= |items|
      invariant AiSectionsFrom(items, i) == Some(d)
    {
      var obj := items[i];
      if obj.JObj? && "section_name" in obj.fields && "content" in obj.fields {
        var name := obj.fields["section_name"];
        if name.JArr? || name.JObj? {
          NoneStaysNone(items, i + 1, |items|);
          return None;
        }
        d := Put(d, name, obj.fields["content"]);
      }
      i := i + 1;
    }
    sections := if |d| >= 1 then Some(d) else None;
  }

  lemma {:induction false} NoneStaysNone(items: seq<Json>, n: nat, m: nat)
    requires n <= m <= |items| && AiSectionsFrom(items, n).None?
    ensures AiSectionsFrom(items, m).None?
    decreases m - n
  {
    if n < m {
      NoneStaysNone(items, n, m - 1);
    }
  }

  /** The content of the last section object named `name` among the first `n`. */
  function LastContentFor(items: seq<Json>, n: nat, name: Json): Option<Json>
    requires n <= |items|
  {
    if n == 0 then None
    else if IsSectionObject(items[n - 1]) && items[n - 1].fields["section_name"] == name then
      Some(items[n - 1].fields["content"])
    else LastContentFor(items, n - 1, name)
  }

  /** Some section object among the first `n` has an unhashable name. */
  predicate SomeUnhashableName(items: seq<Json>, n: nat)
    requires n <= |items|
  {
    exists i :: 0 <= i < n && IsSectionObject(items[i]) && !Hashable(items[i].fields["section_name"])
  }

  /** The conversion fails exactly when some section object has an unhashable name. */
  lemma {:induction false} AiSectionsFromFails(items: seq<Json>, n: nat)
    requires n <= |items|
    ensures AiSectionsFrom(items, n).None? <==> SomeUnhashableName(items, n)
  {
    if n > 0 {
      AiSectionsFromFails(items, n - 1);
      if SomeUnhashableName(items, n) && !SomeUnhashableName(items, n - 1) {
        var i :| 0 <= i < n && IsSectionObject(items[i]) && !Hashable(items[i].fields["section_name"]);
        assert i == n - 1;
      }
    }
  }

  /** When the conversion succeeds, each name maps to the content of its last section object. */
  lemma {:induction false} AiSectionsFromLastWins(items: seq<Json>, n: nat, name: Json)
    requires n <= |items| && AiSectionsFrom(items, n).Some?
    ensures Get(AiSectionsFrom(items, n).value, name) == LastContentFor(items, n, name)
  {
    if n > 0 {
      AiSectionsFromLastWins(items, n - 1, name);
      var d := AiSectionsFrom(items, n - 1).value;
      var obj := items[n - 1];
      if IsSectionObject(obj) && obj.fields["section_name"] != name {
        PutOther(d, obj.fields["section_name"], obj.fields["content"], name);
      }
    }
  }

  /** The AI branch returns a dict exactly when the reply decodes to a non-empty list
      in which every section object has a hashable name and at least one section
      object exists; each name then maps to the content of its last section object. */
  lemma AiSectionsSpec(reply: Option<Json>, name: Json)
    ensures AiSections(reply).Some? <==>
      && reply.Some? && reply.value.JArr? && reply.value.items != []
      && !SomeUnhashableName(reply.value.items, |reply.value.items|)
      && exists i :: 0 <= i < |reply.value.items| && IsSectionObject(reply.value.items[i])
    ensures AiSections(reply).Some? ==>
      Get(AiSections(reply).value, name) == LastContentFor(reply.value.items, |reply.value.items|, name)
  {
    if reply.Some? && reply.value.JArr? && reply.value.items != [] {
      var items := reply.value.items;
      AiSectionsFromFails(items, |items|);
      if AiSectionsFrom(items, |items|).Some? {
        AiSectionsFromLastWins(items, |items|, name);
        AiSectionsFromNonEmpty(items, |items|);
      }
    }
  }

  /** A successful conversion is non-empty exactly when some section object exists. */
  lemma {:induction false} AiSectionsFromNonEmpty(items: seq<Json>, n: nat)
    requires n <= |items| && AiSectionsFrom(items, n).Some?
    ensures |AiSectionsFrom(items, n).value| >= 1 <==> exists i :: 0 <= i < n && IsSectionObject(items[i])
  {
    if n > 0 {
      AiSectionsFromNonEmpty(items, n - 1);
      var d := AiSectionsFrom(items, n - 1).value;
      if IsSectionObject(items[n - 1]) {
        var name := items[n - 1].fields["section_name"];
        assert |Put(d, name, items[n - 1].fields["content"])| >= |d|;
        assert Get(Put(d, name, items[n - 1].fields["content"]), name).Some?;
      } else {
        if exists i :: 0 <= i < n && IsSectionObject(items[i]) {
          var i :| 0 <= i < n && IsSectionObject(items[i]);
          assert i < n - 1;
        }
      }
    }
  }

  // ---------------------------------------------------------------------------
  // The whole of parse_resume_sections

  datatype ParsedSections =
    | FromAi(ai: Dict<Json, Json>)
    | FromPatterns(sections: Dict<string, string>)

  /** `parse_resume_sections(text, use_ai=True, client)`: `aiReply` is the model's
      reply when a client is configured and the call returns. The AI branch is tried
      only for stripped text longer than 100 characters; otherwise, or when its reply
      gives no sections, the pattern-based sections of the stripped text are returned. */
  method ParseResumeSections(text: string, aiReply: Option<string>, parse: string -> Option<Json>,
                             found: seq<HeaderMatch>) returns (r: ParsedSections)
    requires MatchesWithin(found, |Strip(text)|)
    ensures
      var t := Strip(text);
      var ai := if aiReply.Some? && |t| > 100 then AiSections(ExtractJson(aiReply.value, parse)) else None;
      r == if ai.Some? then FromAi(ai.value) else FromPatterns(PatternSections(t, found))
  {
    var t := Strip(text);
    if aiReply.Some? && |t| > 100 {
      var ai := ConvertAiSections(ExtractJson(aiReply.value, parse));
      if ai.Some? {
        return FromAi(ai.value);
      }
    }
    var sections := ParsePatternSections(t, found);
    r := FromPatterns(sections);
  }
}

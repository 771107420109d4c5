/** Resume-Enhancer: picking the JSON value out of a language model's reply
    (`extract_json_from_text`). The JSON decoder itself is the parameter `parse`:
    `parse(s)` is `Some(v)` when `json.loads(s)` returns `v` and `None` when it raises. */
module ResumeJson {
  import opened Wrappers
  import opened PyStr

  /** A decoded JSON value. Numbers are abstracted to integers. */
  datatype Json =
    | JNull
    | JBool(b: bool)
    | JNum(n: int)
    | JStr(s: string)
    | JArr(items: seq<Json>)
    | JObj(fields: map<string, Json>)

  const JsonFence := "```json"
  const Fence := "```"

  /** The stripped text from just after the first `opener` up to the next ```,
      provided that ``` lies strictly after the opener. */
  function FenceBody(text: string, opener: string): (r: Option<string>)
    requires Contains(text, opener)
    ensures r.Some? ==>
      var start := Find(text, opener) + |opener|;
      var end := FindFrom(text, Fence, start);
      start < end && OccursAt(text, Fence, end) && r.value == Strip(text[start..end])
  {
    var start := Find(text, opener) + |opener|;
    var end := FindFrom(text, Fence, start);
    if end > start then Some(Strip(text[start..end])) else None
  }

  /** The fenced candidate: from the first ```json fence when the text has one;
      otherwise from the first bare ``` fence. */
  function FencedCandidate(text: string): (r: Option<string>)
    ensures Contains(text, JsonFence) ==> r == FenceBody(text, JsonFence)
    ensures !Contains(text, Fence) ==> r == None
  {
    if Contains(text, JsonFence) then
      JsonFenceHasFence(text);
      FenceBody(text, JsonFence)
    else if Contains(text, Fence) then FenceBody(text, Fence)
    else None
  }

  /** A text holding ```json holds ```. */
  lemma JsonFenceHasFence(text: string)
    requires Contains(text, JsonFence)
    ensures Contains(text, Fence)
  {
    var j := Find(text, JsonFence);
    assert text[j..j + 3] == text[j..j + 7][..3];
    assert OccursAt(text, Fence, j);
  }

  /** The candidate from the first `{` through the last `}`, when the last `}`
      comes after the first `{`. */
  function BraceCandidate(text: string): (r: Option<string>)
    ensures r.Some? ==> |r.value| >= 2 && r.value[0] == '{' && r.value[|r.value| - 1] == '}'
    ensures r.None? <==> !exists i, j :: 0 <= i < j < |text| && text[i] == '{' && text[j] == '}'
  {
    var first := Find(text, "{");
    var last := RFindChar(text, '}');
    if first >= 0 && last > first then
      assert text[first..first + 1] == "{";
      Some(text[first..last + 1])
    else
      BracePair(text);
      None
  }

  /** The first `{` comes before the last `}` exactly when some `{` comes before
      some `}`. */
  lemma BracePair(text: string)
    ensures (Find(text, "{") >= 0 && RFindChar(text, '}') > Find(text, "{")) <==>
      exists i, j :: 0 <= i < j < |text| && text[i] == '{' && text[j] == '}'
  {
    var first := Find(text, "{");
    if first >= 0 {
      assert text[first..first + 1][0] == text[first];
    }
    forall i, j | 0 <= i < j < |text| && text[i] == '{' && text[j] == '}'
      ensures 0 <= Find(text, "{") <= i && RFindChar(text, '}') >= j
    {
      assert text[i..i + 1] == "{";
      assert OccursAt(text, "{", i);
    }
  }


  /** `extract_json_from_text`: the whole reply, then the fenced candidate, then the
      brace candidate, each tried only when the one before failed to decode. Never
      raises: when nothing decodes the result is `None`. */
  function ExtractJson(text: string, parse: string -> Option<Json>): (r: Option<Json>)
    ensures parse(text).Some? ==> r == parse(text)
    ensures r.Some? ==>
      r == parse(text)
      || (FencedCandidate(text).Some? && r == parse(FencedCandidate(text).value))
      || (BraceCandidate(text).Some? && r == parse(BraceCandidate(text).value))
    ensures r.None? <==>
      && parse(text).None?
      && (FencedCandidate(text).None? || parse(FencedCandidate(text).value).None?)
      && (BraceCandidate(text).None? || parse(BraceCandidate(text).value).None?)
    ensures parse(text).None? && FencedCandidate(text).Some? && parse(FencedCandidate(text).value).Some? ==>
      r == parse(FencedCandidate(text).value)
    ensures parse(text).None? && (FencedCandidate(text).None? || parse(FencedCandidate(text).value).None?) ==>
      r == (if BraceCandidate(text).Some? then parse(BraceCandidate(text).value) else None)
  {
    if parse(text).Some? then parse(text)
    else
      var fenced := FencedCandidate(text);
      if fenced.Some? && parse(fenced.value).Some? then parse(fenced.value)
      else
        var braced := BraceCandidate(text);
        if braced.Some? then parse(braced.value) else None
  }

  // ---------------------------------------------------------------------------
  // Index lemmas

  /** `find` lands on an occurrence when nothing before it, from `i` on, starts like the pattern. */
  lemma FindAt(s: string, p: string, i: nat, j: nat)
    requires |p| > 0 && i <= j && OccursAt(s, p, j)
    requires forall m :: i <= m < j ==> s[m] != p[0]
    ensures FindFrom(s, p, i) == j
  {
    OccurrenceStartsWithFirst(s, p);
  }

  /** Every occurrence of `p` starts with `p`'s first character. */
  lemma OccurrenceStartsWithFirst(s: string, p: string)
    requires |p| > 0
    ensures forall m :: OccursAt(s, p, m) ==> s[m] == p[0]
  {
    forall m | OccursAt(s, p, m) ensures s[m] == p[0] {
      assert s[m..m + |p|][0] == s[m];
    }
  }

  /** A pattern whose first character is absent from `s` does not occur in `s`. */
  lemma NotContained(s: string, p: string)
    requires |p| > 0 && p[0] !in s
    ensures !Contains(s, p)
  {
    OccurrenceStartsWithFirst(s, p);
  }

  // ---------------------------------------------------------------------------
  // What the candidates are, for replies of the usual shapes

  /** After a backtick-free prefix, a fence opener, a backtick-free body and a
      closing fence, the fenced body is the stripped body. */
  lemma FenceBodyOf(pre: string, opener: string, body: string, post: string)
    requires |opener| > 0 && opener[0] == '`'
    requires '`' !in pre && '`' !in body && body != []
    ensures Contains(pre + opener + body + Fence + post, opener)
    ensures FenceBody(pre + opener + body + Fence + post, opener) == Some(Strip(body))
  {
    var text := pre + opener + body + Fence + post;
    var start := |pre| + |opener|;
    var end := start + |body|;
    assert text[|pre|..start] == opener;
    forall m | 0 <= m < |pre| ensures text[m] != opener[0] {
      assert text[m] == pre[m];
    }
    FindAt(text, opener, 0, |pre|);
    assert text[start..end] == body;
    assert text[end..end + 3] == Fence;
    forall m | start <= m < end ensures text[m] != '`' {
      assert text[m] == body[m - start];
    }
    FindAt(text, Fence, start, end);
    FenceBodyAt(text, opener, start, end);
  }

  /** The fenced body, given where the opener ends and the closing fence starts. */
  lemma FenceBodyAt(text: string, opener: string, start: nat, end: nat)
    requires Find(text, opener) >= 0 && Find(text, opener) + |opener| == start
    requires start < end && FindFrom(text, Fence, start) == end
    ensures Contains(text, opener) && FenceBody(text, opener) == Some(Strip(text[start..end]))
  {
  }

  /** A reply holding `pre` ```json `body` ``` `post`, with no backtick before the
      closing fence, yields the stripped `body` as its fenced candidate. */
  lemma JsonFenceCandidate(pre: string, body: string, post: string)
    requires '`' !in pre && '`' !in body && body != []
    ensures FencedCandidate(pre + JsonFence + body + Fence + post) == Some(Strip(body))
  {
    FenceBodyOf(pre, JsonFence, body, post);
  }

  /** An empty ```json fence ends the fence search: no fenced candidate, even if a
      bare fence with content follows. */
  lemma EmptyJsonFence(pre: string, post: string)
    requires '`' !in pre
    ensures FencedCandidate(pre + JsonFence + Fence + post) == None
  {
    var text := pre + JsonFence + Fence + post;
    var start := |pre| + 7;
    assert text[|pre|..start] == JsonFence;
    FindAt(text, JsonFence, 0, |pre|);
    assert text[start..start + 3] == Fence;
    FindAt(text, Fence, start, start);
  }

  /** Without any ```json fence, a reply holding `pre` ``` `body` ``` `post` yields
      the stripped `body` as its fenced candidate. */
  lemma BareFenceCandidate(pre: string, body: string, post: string)
    requires '`' !in pre && '`' !in body && body != []
    requires !Contains(pre + Fence + body + Fence + post, JsonFence)
    ensures FencedCandidate(pre + Fence + body + Fence + post) == Some(Strip(body))
  {
    FenceBodyOf(pre, Fence, body, post);
  }

  /** A fence-free reply `pre` + `obj` + `post`, where `obj` runs from a `{` to a `}`,
      no `{` precedes it and no `}` follows it, yields `obj` as its brace candidate. */
  lemma BraceCandidateOf(pre: string, obj: string, post: string)
    requires '{' !in pre && '}' !in post
    requires |obj| >= 1 && obj[0] == '{' && obj[|obj| - 1] == '}'
    ensures BraceCandidate(pre + obj + post) == Some(obj)
  {
    var text := pre + obj + post;
    var q := |pre| + |obj| - 1;
    assert text[|pre|..|pre| + 1] == "{";
    FindAt(text, "{", 0, |pre|);
    assert text[q] == '}';
    forall j | q < j < |text| ensures text[j] != '}' {
      assert text[j] == post[j - q - 1];
    }
    assert text[|pre|..q + 1] == obj;
  }

  // ---------------------------------------------------------------------------
  // Round trips through extract_json_from_text

  /** A reply that does not decode as a whole, but wraps a decodable value in a
      ```json fence, yields that value. */
  lemma ExtractFromJsonFence(pre: string, body: string, post: string, parse: string -> Option<Json>)
    requires '`' !in pre && '`' !in body && body != []
    requires parse(pre + JsonFence + body + Fence + post).None?
    requires parse(Strip(body)).Some?
    ensures ExtractJson(pre + JsonFence + body + Fence + post, parse) == parse(Strip(body))
  {
    JsonFenceCandidate(pre, body, post);
  }

  /** A fence-free reply that does not decode as a whole yields the value between
      its first `{` and its last `}`, when that decodes. */
  lemma ExtractFromBraces(pre: string, obj: string, post: string, parse: string -> Option<Json>)
    requires '{' !in pre && '}' !in post && '`' !in pre + obj + post
    requires |obj| >= 1 && obj[0] == '{' && obj[|obj| - 1] == '}'
    requires parse(pre + obj + post).None?
    ensures ExtractJson(pre + obj + post, parse) == parse(obj)
  {
    var text := pre + obj + post;
    NotContained(text, JsonFence);
    NotContained(text, Fence);
    BraceCandidateOf(pre, obj, post);
  }
}

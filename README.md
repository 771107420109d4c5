# Resume and RAG text helpers, modelled in Dafny

This project models the deterministic text and list logic of two Streamlit
applications:

- **Resume-Enhancer** (`Resume-Enhancer/app.py`):
  - picking a JSON value out of a language-model reply (`extract_json_from_text`);
  - splitting a resume into named sections (`parse_resume_sections`): the AI
    reply's list-to-dict conversion and the pattern-based fallback, which sorts
    header matches, slices the text between them, keeps substantial sections and
    falls back to a preview;
  - assembling a page's text from PDF layout blocks, and the document's text from
    its pages (`extract_text_from_pdf`);
  - the plain-text export of the enhanced resume.
- **RAG-With-Dockling** (`RAG-With-Dockling/app.py`):
  - `process_response`: rewrites code fences, then bullet and numbered lines;
  - the chat history, `reset_chat`, the accumulation of a streamed answer, and the
    per-file query-engine cache.

Python's own behaviour is modelled explicitly:

- `str` operations (`strip`, `find`, `rfind`, `replace`, `split`, `join`, `upper`)
  in `PyStr`;
- the insertion-ordered `dict` in `Dicts`;
- the stable `list.sort(key=...)` in `Sorting`.

Everything the applications get from outside is a parameter of the model:

- `json.loads` is `parse: string -> Option<Json>`;
- the regular-expression header matches are a list of `HeaderMatch` records;
- PDF pages are their layout blocks and plain text;
- model replies and streamed chunks are given values;
- query engines are an opaque type.

Modules:

- `Wrappers`: `Option`.
- `PyStr`, `Dicts`, `Sorting`: the Python built-ins used.
- `ResumeJson`: the JSON value and `extract_json_from_text`.
- `ResumeSections`: `parse_resume_sections`.
- `PdfBlocks`: layout-block assembly and page accumulation.
- `ResumeExport`: the text export.
- `RagFormat`: `process_response`.
- `RagChat`: the session state, as a class.

Loops that update variables in the source are methods with loop invariants. Each
is proved equal to a specification function, and the properties are proved as
lemmas about those functions.

## Model

| member | source | states |
|---|---|---|
| PyStr.Strip | Resume-Enhancer/app.py:375 | `str.strip()` returns the slice of the input left after cutting whitespace only from either end, with no whitespace at its own ends; it is empty exactly when the input is all whitespace |
| PyStr.StripIdempotent | Resume-Enhancer/app.py:493 | stripping twice gives the same text as stripping once |
| PyStr.StripPadded | RAG-With-Dockling/app.py:266-267 | stripping indentation off a text with non-space ends gives that text |
| PyStr.StripKeepsFirst | RAG-With-Dockling/app.py:266-269 | a text starting with a non-space character keeps that first character when stripped |
| PyStr.FindFrom | Resume-Enhancer/app.py:524-525 | `s.find(p, i)` is -1 or the lowest occurrence at or after `i`, with no occurrence in between |
| PyStr.RFindChar | Resume-Enhancer/app.py:541 | `s.rfind(c)` is -1 or an index holding `c`, and no later index holds `c` |
| PyStr.Replace | RAG-With-Dockling/app.py:259-260 | `s.replace(p, r)` leaves a text without occurrences of `p` unchanged |
| PyStr.ReplaceHead | RAG-With-Dockling/app.py:259-260 | the replacement's first character is the replacement text's when the pattern starts the string, else the string's own |
| PyStr.ReplaceSkip | RAG-With-Dockling/app.py:259-260 | a prefix holding no character that starts the pattern is copied unchanged, and the scan resumes after it |
| PyStr.ReplaceAtHead | RAG-With-Dockling/app.py:259-260 | an occurrence at the head becomes the replacement text, and the scan resumes after the occurrence |
| PyStr.ReplaceFirst | RAG-With-Dockling/app.py:259-260 | the first occurrence after such a prefix becomes the replacement text, with the rest replaced in turn |
| PyStr.ReplaceNone | RAG-With-Dockling/app.py:259-260 | a text holding no character that starts the pattern is returned as it is |
| PyStr.ReplaceKeepsCount | RAG-With-Dockling/app.py:259-260 | replacing a pattern by a text, neither holding `c`, keeps the number of `c`s |
| PyStr.Split | RAG-With-Dockling/app.py:263 | `s.split(sep)` has at least one piece and no piece holds the separator |
| PyStr.JoinSplit | RAG-With-Dockling/app.py:263-274 | joining the pieces of a split with the same separator gives the text back |
| PyStr.SplitJoin | RAG-With-Dockling/app.py:263-274 | splitting a join of separator-free pieces gives the pieces back |
| PyStr.SplitCount | RAG-With-Dockling/app.py:263 | a text splits into one more piece than it has separators |
| PyStr.Upper | Resume-Enhancer/app.py:808 | `str.upper()` keeps the length and upper-cases each character |
| PyStr.BlankConcat | Resume-Enhancer/app.py:162-164 | a concatenation is blank exactly when both halves are |
| PyStr.ConcatAppend | RAG-With-Dockling/app.py:294-295 | concatenating two runs of chunks is concatenating their concatenations |
| PyStr.ConcatSplit | Resume-Enhancer/app.py:806-816 | a concatenation is the parts before `i`, then part `i`, then the parts after it |
| PyStr.ConcatLength | RAG-With-Dockling/app.py:294-295 | the concatenation's length is the sum of the parts' lengths |
| Dicts.Get | Resume-Enhancer/app.py:811-814 | `d.get(k)` is absent exactly when `k` is not a key, and otherwise is the value stored under `k` |
| Dicts.Put | Resume-Enhancer/app.py:497 | after `d[k] = v`, `k` maps to `v`; the size grows by one exactly when `k` was new |
| Dicts.PutOther | Resume-Enhancer/app.py:497 | `d[k] = v` leaves every other key's value unchanged |
| Dicts.PutKeys | Resume-Enhancer/app.py:497 | `d[k] = v` keeps the key order when `k` is present, and otherwise appends `k` |
| Dicts.PutKeepsDistinct | Resume-Enhancer/app.py:497 | assignment keeps the keys distinct |
| Dicts.Remove | Resume-Enhancer/app.py:793 | after `del d[k]`, `k` is absent and the dict is no larger |
| Dicts.RemoveOther | Resume-Enhancer/app.py:793 | `del d[k]` leaves every other key's value unchanged |
| Sorting.SortByKey | Resume-Enhancer/app.py:485 | `list.sort(key=...)` returns a permutation of the list |
| Sorting.SortByKeySorted | Resume-Enhancer/app.py:485 | the sorted list is in ascending key order |
| Sorting.SortByKeyStable | Resume-Enhancer/app.py:485 | elements with equal keys keep their relative order |
| ResumeJson.FenceBody | Resume-Enhancer/app.py:523-534 | the fenced body exists only when the closing ``` lies after the opener; it is then the stripped text between them |
| ResumeJson.FencedCandidate | Resume-Enhancer/app.py:523-534 | a ```json fence, even an empty one, decides the candidate; without any ``` there is no fenced candidate |
| ResumeJson.BraceCandidate | Resume-Enhancer/app.py:539-544 | the brace candidate runs from a `{` to a `}` and holds at least two characters; there is none exactly when no `{` comes before a `}` |
| ResumeJson.BracePair | Resume-Enhancer/app.py:541-543 | the first `{` lies before the last `}` exactly when some `{` lies before some `}` |
| ResumeJson.ExtractJson | Resume-Enhancer/app.py:510-548 | the direct parse wins when it succeeds, then a decodable fenced candidate, then the brace candidate's parse; the result is `None` exactly when all three fail |
| ResumeJson.JsonFenceCandidate | Resume-Enhancer/app.py:523-528 | a reply `pre ```json body ``` post` yields the stripped `body` as its fenced candidate |
| ResumeJson.EmptyJsonFence | Resume-Enhancer/app.py:523-528 | an empty ```json fence gives no fenced candidate, even when a bare fence with content follows |
| ResumeJson.BareFenceCandidate | Resume-Enhancer/app.py:529-534 | without ```json, a reply `pre ``` body ``` post` yields the stripped `body` |
| ResumeJson.BraceCandidateOf | Resume-Enhancer/app.py:539-544 | the brace candidate of `pre obj post` is `obj` when no `{` precedes it and no `}` follows it |
| ResumeJson.ExtractFromJsonFence | Resume-Enhancer/app.py:515-528 | a reply that does not decode as a whole but wraps a decodable value in a ```json fence yields that value |
| ResumeJson.ExtractFromBraces | Resume-Enhancer/app.py:515-548 | a fence-free reply that does not decode as a whole yields the decoded brace span |
| ResumeSections.Slice | Resume-Enhancer/app.py:493 | `s[a:b]` is `s[a..b]` when `a < b` and empty otherwise |
| ResumeSections.SectionContent | Resume-Enhancer/app.py:489-493 | a section's content is empty when the next header starts before this one ends |
| ResumeSections.SectionContentStripped | Resume-Enhancer/app.py:493 | a section's content is already stripped |
| ResumeSections.SortMatches | Resume-Enhancer/app.py:485 | sorting the matches keeps them inside the text and is a permutation |
| ResumeSections.NoSectionsFallback | Resume-Enhancer/app.py:500-504 | the fallback holds 'Full Resume', the whole text when short, else the first 1000 characters and "..." followed by 'Remaining Content' holding the rest |
| ResumeSections.CollectPatternSections | Resume-Enhancer/app.py:488-497 | the section loop computes the dict of substantial sections |
| ResumeSections.ParsePatternSections | Resume-Enhancer/app.py:485-506 | sorting, collecting and the preview fallback give the pattern-based sections |
| ResumeSections.CollectSectionsLastWins | Resume-Enhancer/app.py:496-497 | each name maps to the content of its last match longer than ten characters |
| ResumeSections.CollectSectionsKeys | Resume-Enhancer/app.py:496-497 | names appear once each, in the order of their first substantial match |
| ResumeSections.LastSubstantialIsSubstantial | Resume-Enhancer/app.py:496 | every kept content is longer than ten characters and is the content of a match with that name |
| ResumeSections.PatternSectionsShape | Resume-Enhancer/app.py:500-506 | the result is never empty, and the preview fallback is used exactly when no match is substantial |
| ResumeSections.FallbackReconstructs | Resume-Enhancer/app.py:500-504 | 'Full Resume' without its "..." followed by 'Remaining Content' gives the text back; 'Remaining Content' exists exactly when the text is longer than 1000 characters |
| ResumeSections.AiSectionsFrom | Resume-Enhancer/app.py:443-445 | a successful conversion of `n` elements has at most `n` entries, with distinct, hashable names |
| ResumeSections.ConvertAiSections | Resume-Enhancer/app.py:439-450 | the conversion loop computes the AI sections |
| ResumeSections.AiSectionsFromFails | Resume-Enhancer/app.py:443-445 | the conversion fails exactly when some section object has an unhashable name |
| ResumeSections.AiSectionsFromLastWins | Resume-Enhancer/app.py:443-445 | a successful conversion maps each name to the content of its last section object |
| ResumeSections.AiSectionsFromNonEmpty | Resume-Enhancer/app.py:443-448 | a successful conversion is non-empty exactly when some section object exists |
| ResumeSections.AiSectionsSpec | Resume-Enhancer/app.py:439-450 | the AI branch returns a dict exactly when the reply is a non-empty list with a section object and no unhashable name; each name then maps to its last content |
| ResumeSections.ParseResumeSections | Resume-Enhancer/app.py:375-506 | the AI sections are used only for stripped text over 100 characters when the reply yields some; otherwise the pattern sections of the stripped text are used |
| PdfBlocks.Kept | Resume-Enhancer/app.py:136-140 | a kept block has a non-empty stripped text and the box of its layout block |
| PdfBlocks.BuildBlockText | Resume-Enhancer/app.py:127-134 | the nested line and span loops compute the block text |
| PdfBlocks.CollectBlocks | Resume-Enhancer/app.py:125-140 | the block loop collects exactly the kept blocks, in layout order |
| PdfBlocks.JoinBlocks | Resume-Enhancer/app.py:146-148 | the join loop computes the page text of the sorted blocks |
| PdfBlocks.AssembleLayout | Resume-Enhancer/app.py:124-149 | the kept blocks are sorted by position, and the page text is built from them |
| PdfBlocks.ExtractPageText | Resume-Enhancer/app.py:117-159 | with `use_enhanced`, a blank layout text falls back to the plain text; without it the plain text is used |
| PdfBlocks.AddPage | Resume-Enhancer/app.py:113-162 | one pass of the page loop appends the page's text and a blank line exactly when that text is not blank |
| PdfBlocks.AccumulatePages | Resume-Enhancer/app.py:112-162 | the page loop accumulates the non-blank page texts in page order, each followed by a blank line |
| PdfBlocks.ExtractText | Resume-Enhancer/app.py:112-164 | the page loop, followed by the final strip of line 269, computes the document text |
| PdfBlocks.KeptBlocksMembers | Resume-Enhancer/app.py:125-140 | a block is kept exactly when some layout block yields it, and there are never more kept blocks than layout blocks |
| PdfBlocks.KeptBlocksClean | Resume-Enhancer/app.py:136-140 | every kept block's text is non-empty and already stripped |
| PdfBlocks.LayoutOrder | Resume-Enhancer/app.py:143 | the page's blocks are the kept blocks, ordered top to bottom then left to right, with ties kept in layout order |
| PdfBlocks.PageTextBlank | Resume-Enhancer/app.py:146-148 | the page text is blank exactly when every block text is |
| PdfBlocks.LayoutBlankIffNoBlocks | Resume-Enhancer/app.py:146-156 | the layout text is blank, so the plain text is used, exactly when no block is kept |
| PdfBlocks.PageTextConcat | Resume-Enhancer/app.py:146-148 | the page text is each block's text followed by a blank line, in order |
| PdfBlocks.PageTextOfBlank | Resume-Enhancer/app.py:117-162 | a page adds nothing exactly when its plain text is blank and no layout block is kept; a kept block makes the layout text the page text |
| PdfBlocks.DocumentTextEmpty | Resume-Enhancer/app.py:162-164 | the stripped document text is empty exactly when every page text is blank |
| PdfBlocks.AccumulatedBlank | Resume-Enhancer/app.py:160-162 | the text accumulated over the first `n` pages is blank exactly when each of their page texts is |
| ResumeExport.SectionBlock | Resume-Enhancer/app.py:807-816 | a block is 127 characters longer than the name and body it shows |
| ResumeExport.Blocks | Resume-Enhancer/app.py:806-816 | there is one block per section, in section order, showing the enhanced text when present and the original content otherwise |
| ResumeExport.BuildExport | Resume-Enhancer/app.py:799-816 | no export without an enhancement; otherwise the loop computes the export text |
| ResumeExport.SectionBlockParts | Resume-Enhancer/app.py:807-816 | a block is a newline, 60 '=', a newline, the upper-cased name, a newline, 60 '=', two newlines, the body and two newlines |
| ResumeExport.ExportSplitsAt | Resume-Enhancer/app.py:806-816 | the export is the blocks of the earlier sections, then section `i`'s block, then the blocks of the later sections |
| ResumeExport.ExportLength | Resume-Enhancer/app.py:806-816 | the export has 127 characters plus the name and body length for each section |
| ResumeExport.ExportIgnoresOtherNames | Resume-Enhancer/app.py:806-814 | enhanced texts for names that are not sections do not change the export |
| ResumeExport.ExportOriginal | Resume-Enhancer/app.py:810-814 | with no enhancement for any section name, the export shows every original content |
| ResumeExport.EnhanceChangesOneBlock | Resume-Enhancer/app.py:806-814 | storing an enhanced text for a name changes only the blocks of that name, which then show it |
| ResumeExport.RemoveRestoresBlock | Resume-Enhancer/app.py:806-814 | removing an enhanced text brings back the original content in that name's blocks and changes no other block |
| RagFormat.RewriteFences | RAG-With-Dockling/app.py:257-260 | a text without ``` is unchanged; after the rewrite no ``` is left, and the number of line feeds is kept |
| RagFormat.CodeBlockTags | RAG-With-Dockling/app.py:257-260 | a ```python fence and its closing ``` become `<pre><code class="language-python">` and `</code></pre>`, and the code and surrounding text are kept |
| RagFormat.OpenTag | RAG-With-Dockling/app.py:259 | the first pass turns ```python into the opening code tag and leaves the closing fence alone |
| RagFormat.CloseTag | RAG-With-Dockling/app.py:260 | the second pass turns the remaining ``` into the closing code tag |
| RagFormat.FormatLine | RAG-With-Dockling/app.py:266-271 | a bullet line becomes a line starting with the bullet sign, as long as the stripped line; a numbered line starts with `<strong>` and grows by 17 characters; any other line is kept |
| RagFormat.FormatLines | RAG-With-Dockling/app.py:264-271 | the lines are formatted one by one, in place |
| RagFormat.ProcessResponse | RAG-With-Dockling/app.py:254-274 | the fence rewrite, the line loop and the join compute the formatted response |
| RagFormat.FormatLineNoNewline | RAG-With-Dockling/app.py:266-271 | formatting a line never introduces a line feed |
| RagFormat.LinesCorrespond | RAG-With-Dockling/app.py:257-274 | the response has as many lines as the input, and each line is the fence-rewritten input line, formatted |
| RagFormat.UnchangedWithoutRules | RAG-With-Dockling/app.py:257-274 | a text without fences, bullet lines or numbered lines comes back unchanged |
| RagFormat.BulletLine | RAG-With-Dockling/app.py:266-267 | an indented line `- item` becomes `• item` and loses its indentation |
| RagFormat.NumberedLine | RAG-With-Dockling/app.py:269-271 | a line `num. content` becomes `<strong>num.</strong> content` |
| RagFormat.FormatLineIdempotent | RAG-With-Dockling/app.py:264-271 | formatting a formatted line changes nothing |
| RagFormat.ReplaceLeavesNoFence | RAG-With-Dockling/app.py:260 | replacing every ``` by a text without backticks leaves no ``` |
| RagChat.FileKey | RAG-With-Dockling/app.py:145 | the key is the session id, a '-', then the file name |
| RagChat.FileKeyInjective | RAG-With-Dockling/app.py:145-148 | within a session, different file names get different keys |
| RagChat.AccumulateChunks | RAG-With-Dockling/app.py:287-295 | the streamed chunks are concatenated in order, and the length is the sum of theirs |
| RagChat.ChatSession.constructor | RAG-With-Dockling/app.py:26-28 | a new session has its id, an empty cache, an empty history and no context |
| RagChat.ChatSession.ResetChat | RAG-With-Dockling/app.py:118-120 | `reset_chat` empties the history, clears the context and keeps the cache |
| RagChat.ChatSession.LoadFile | RAG-With-Dockling/app.py:145-232 | a cached engine is reused and the cache left as it was; otherwise the built engine is stored under the file key and returned; a build that raises yields no engine and leaves the cache without the key |
| RagChat.ChatSession.Ask | RAG-With-Dockling/app.py:277-306 | a prompt appends one user message, then one assistant message holding the unformatted concatenated answer; the formatted answer is what is shown; an empty prompt does nothing |

## Left out

- Streamlit itself is not modelled: rendering, widgets, spinners, progress bars, `st.rerun` and `st.stop`.
- Language-model calls are not modelled. Their replies are parameters: `aiReply` in `ParseResumeSections`, and the streamed answer in `Ask`. The prompts and `enhance_section` are not modelled.
- The AI normalisation in `extract_text_from_pdf`, which may replace the document text with a model reply longer than 100 characters (Resume-Enhancer/app.py:178-231), is not modelled. The JSON structuring after it is not modelled either. `DocumentText` is the text returned when no model client is configured or the reply is not used.
- The JSON grammar is not modelled. `json.loads` is the parameter `parse`, and numbers are abstracted to integers.
- ResumeJson.ExtractJson: a reply that decodes to JSON `null` gives `Some(JNull)` where Python returns `None`. Both callers, at Resume-Enhancer/app.py:255-256 and Resume-Enhancer/app.py:439-441, test the result for truth, so both values count as a failed parse there.
- Exceptions other than a failed decode are not modelled: `json.loads` on a `None` reply, and a non-string span text or a short `bbox` in PyMuPDF output. A missing reply is modelled as `aiReply == None`, which leads to the same pattern-matching path.
- Regular expressions are not modelled. The header matches that `re.finditer` finds in the stripped text are the input `found`, in discovery order, each with `start <= end <= len(text)`.
- PyMuPDF is not modelled. A page is its block structure and its plain text, and box coordinates are integers rather than floats.
- The debug record, the per-page `--- Page n ---` list, and the progress fractions are not modelled. They only feed the user interface.
- PyStr.Strip: only ASCII whitespace (with 0x1C-0x1F) is stripped; Unicode whitespace is not modelled.
- PyStr.Upper: only ASCII letters are upper-cased.
- PyStr.IsDigit: only ASCII digits count.
- Python's hash equality of `True` and `1` as dict keys is not modelled. JSON section names are compared as values.
- ResumeExport.BuildExport: sections are string-to-string dicts. Non-string AI section names, for which `upper()` raises, are not modelled.
- The export reads each section's content from its own dict entry; with distinct keys this is `sections[section_name]`.
- The JSON export, file names with timestamps, and temporary files are not modelled.
- RagChat.ChatSession.Ask: `answer == None` stands for a missing query engine or a query that raises. The user message is then recorded and nothing else happens.
- `uuid.uuid4()` is the constructor's `sessionId` parameter. Building an engine (document loading, indexing) is the `build` parameter of `LoadFile`, and `None` stands for a build that raises.
- `gc.collect()` in `reset_chat` has no observable effect on the modelled state.
- The other applications of the repository are out of scope and not modelled: the agent crew, the SQL chat apps, the summariser, the maths solver, the embedding experiment, and the search engine. The search engine has its own logic: a routing rule capped at five steps (Search Engine/graph.py:22-25), a step counter, and a reference-line splitter.

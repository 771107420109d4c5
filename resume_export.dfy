/** Resume-Enhancer: the plain-text export of the resume, built from the parsed
    sections and the enhanced texts the user kept. */
module ResumeExport {
  import opened Wrappers
  import opened PyStr
  import opened Dicts

  /** `c * n`: the character `c`, `n` times. */
  function Repeat(c: char, n: nat): (r: string)
    ensures |r| == n
    ensures forall i :: 0 <= i < n ==> r[i] == c
  {
    if n == 0 then [] else [c] + Repeat(c, n - 1)
  }

  /** `'=' * 60`. */
  const Rule: string := Repeat('=', 60)

  /** The export block of one section: a ruled header with the upper-cased name,
      then the body and a blank line. */
  function SectionBlock(name: string, body: string): (r: string)
    ensures |r| == |name| + |body| + 127
  {
    "\n" + Rule + "\n" + Upper(name) + "\n" + Rule + "\n\n" + body + "\n\n"
  }

  /** The text exported for a section: its enhanced text when there is one,
      otherwise its original content. */
  function Body(section: (string, string), enhanced: Dict<string, string>): string
  {
    Get(enhanced, section.0).GetOr(section.1)
  }

  /** The block of each section, in the order of the sections. */
  function Blocks(sections: Dict<string, string>, enhanced: Dict<string, string>): (bs: seq<string>)
    ensures |bs| == |sections|
    ensures forall i :: 0 <= i < |sections| ==> bs[i] == SectionBlock(sections[i].0, Body(sections[i], enhanced))
  {
    seq(|sections|, i requires 0 <= i < |sections| => SectionBlock(sections[i].0, Body(sections[i], enhanced)))
  }

  /** The exported text. */
  function ExportText(sections: Dict<string, string>, enhanced: Dict<string, string>): string
  {
    Concat(Blocks(sections, enhanced))
  }

  /** Lines 805-816: the export exists only once some section has been enhanced; it
      then holds one block per parsed section. */
  method BuildExport(sections: Dict<string, string>, enhanced: Dict<string, string>) returns (text: Option<string>)
    ensures enhanced == [] ==> text == None
    ensures enhanced != [] ==> text == Some(ExportText(sections, enhanced))
  {
    if enhanced == [] {
      return None;
    }
    ghost var bs := Blocks(sections, enhanced);
    var enhancedText := [];
    var i := 0;
    assert bs[..i] == [];
    while i < |sections|
      invariant 0 <= i <= |sections|
      invariant enhancedText == Concat(bs[..i])
    {
      assert bs[..i + 1][..i] == bs[..i];
      var (sectionName, content) := sections[i];
      enhancedText := enhancedText + "\n" + Rule + "\n";
      enhancedText := enhancedText + Upper(sectionName) + "\n";
      enhancedText := enhancedText + Rule + "\n\n";
      var stored := Get(enhanced, sectionName);
      if stored.Some? {
        enhancedText := enhancedText + stored.value;
      } else {
        enhancedText := enhancedText + content;
      }
      enhancedText := enhancedText + "\n\n";
      AppendBlock(Concat(bs[..i]), sectionName, Body(sections[i], enhanced));
      i := i + 1;
    }
    assert bs[..i] == bs;
    return Some(enhancedText);
  }

  /** Appending a block piece by piece appends the block. */
  lemma AppendBlock(before: string, name: string, body: string)
    ensures before + "\n" + Rule + "\n" + Upper(name) + "\n" + Rule + "\n\n" + body + "\n\n"
      == before + SectionBlock(name, body)
  {
    var a := before + "\n" + Rule + "\n" + Upper(name) + "\n" + Rule + "\n\n" + body + "\n\n";
    var b := before + SectionBlock(name, body);
    assert |a| == |b|;
    forall j | 0 <= j < |a| ensures a[j] == b[j] {
      if j >= |before| {
        assert b[j] == SectionBlock(name, body)[j - |before|];
      }
    }
  }

  // ---------------------------------------------------------------------------
  // Properties of the export

  /** A block gives back its section's upper-cased name and its body. */
  lemma SectionBlockParts(name: string, body: string)
    ensures var r := SectionBlock(name, body);
      && r[..62] == "\n" + Rule + "\n"
      && r[62..62 + |name|] == Upper(name)
      && r[62 + |name| .. 125 + |name|] == "\n" + Rule + "\n\n"
      && r[125 + |name| .. 125 + |name| + |body|] == body
      && r[125 + |name| + |body|..] == "\n\n"
  {
    var r := SectionBlock(name, body);
    var head := "\n" + Rule + "\n";
    var mid := "\n" + Rule + "\n\n";
    assert r == head + Upper(name) + mid + body + "\n\n";
  }

  /** The export is the sections before `i`, then section `i`'s block, then the
      sections after it: one block per section, in the order of the sections. */
  lemma ExportSplitsAt(sections: Dict<string, string>, enhanced: Dict<string, string>, i: nat)
    requires i < |sections|
    ensures ExportText(sections, enhanced) ==
      ExportText(sections[..i], enhanced)
      + SectionBlock(sections[i].0, Body(sections[i], enhanced))
      + ExportText(sections[i + 1..], enhanced)
  {
    var bs := Blocks(sections, enhanced);
    ConcatSplit(bs, i);
    BlocksSlice(sections, enhanced, 0, i);
    BlocksSlice(sections, enhanced, i + 1, |sections|);
    assert sections[0..i] == sections[..i];
    assert bs[0..i] == bs[..i];
    assert sections[i + 1..|sections|] == sections[i + 1..];
    assert bs[i + 1..|sections|] == bs[i + 1..];
  }

  /** The blocks of a run of sections are that run of the blocks. */
  lemma BlocksSlice(sections: Dict<string, string>, enhanced: Dict<string, string>, lo: nat, hi: nat)
    requires lo <= hi <= |sections|
    ensures Blocks(sections[lo..hi], enhanced) == Blocks(sections, enhanced)[lo..hi]
  {
  }

  /** The length of the export: 127 characters of rules and line feeds per section,
      plus its name and body. */
  lemma {:induction false} ExportLength(sections: Dict<string, string>, enhanced: Dict<string, string>)
    ensures |ExportText(sections, enhanced)| == ExportSize(sections, enhanced)
  {
    if sections != [] {
      var n := |sections| - 1;
      ExportSplitsAt(sections, enhanced, n);
      ExportLength(sections[..n], enhanced);
      assert sections[n + 1..] == [];
      assert Blocks(sections[n + 1..], enhanced) == [];
    }
  }

  function ExportSize(sections: Dict<string, string>, enhanced: Dict<string, string>): nat
  {
    if sections == [] then 0
    else
      var last := sections[|sections| - 1];
      ExportSize(sections[..|sections| - 1], enhanced) + 127 + |last.0| + |Body(last, enhanced)|
  }

  /** Enhanced texts for names that are not sections are not exported. */
  lemma ExportIgnoresOtherNames(sections: Dict<string, string>, enhanced: Dict<string, string>, k: string, v: string)
    requires k !in Keys(sections)
    ensures ExportText(sections, Put(enhanced, k, v)) == ExportText(sections, enhanced)
  {
    forall i | 0 <= i < |sections|
      ensures Body(sections[i], Put(enhanced, k, v)) == Body(sections[i], enhanced)
    {
      assert Keys(sections)[i] == sections[i].0;
      PutOther(enhanced, k, v, sections[i].0);
    }
    assert Blocks(sections, Put(enhanced, k, v)) == Blocks(sections, enhanced);
  }

  /** Without any enhancement for a section name, the export shows every original
      content. */
  lemma ExportOriginal(sections: Dict<string, string>, enhanced: Dict<string, string>)
    requires forall i :: 0 <= i < |sections| ==> sections[i].0 !in Keys(enhanced)
    ensures ExportText(sections, enhanced) == ExportText(sections, [])
  {
    assert Blocks(sections, enhanced) == Blocks(sections, []);
  }

  /** Keeping an enhanced text for `k` changes the blocks named `k`, which now show
      it, and no other block. */
  lemma EnhanceChangesOneBlock(sections: Dict<string, string>, enhanced: Dict<string, string>,
                               k: string, v: string, i: nat)
    requires i < |sections|
    ensures Blocks(sections, Put(enhanced, k, v))[i] ==
      if sections[i].0 == k then SectionBlock(k, v) else Blocks(sections, enhanced)[i]
  {
    if sections[i].0 != k {
      PutOther(enhanced, k, v, sections[i].0);
    }
  }

  /** Removing the enhanced text for `k` brings back the original content in the
      blocks named `k` and changes no other block. */
  lemma RemoveRestoresBlock(sections: Dict<string, string>, enhanced: Dict<string, string>,
                            k: string, i: nat)
    requires i < |sections|
    ensures Blocks(sections, Remove(enhanced, k))[i] ==
      if sections[i].0 == k then SectionBlock(k, sections[i].1) else Blocks(sections, enhanced)[i]
  {
    if sections[i].0 != k {
      RemoveOther(enhanced, k, sections[i].0);
    }
  }
}

/**
 * bible_parser/pptx_builder.py: the XML fragments that register one slide per
 * verse in a PowerPoint package, the filling of the slide template, and the
 * set of files `build` writes.
 */
module PptxBuilder {
  import opened Wrappers
  import opened Strings

  const PptxDataDir := "./data/pptx"
  const PptxDataErrorFile := PptxDataDir + "/files/error.pptx"
  const PptxOutputDir := "./output"

  /** The marker in each template that the generated fragment replaces. */
  const ReplacementPos := "replacement_position"

  const SlideContentType := "application/vnd.openxmlformats-officedocument.presentationml.slide+xml"
  const SlideRelationshipType := "http://schemas.openxmlformats.org/officeDocument/2006/relationships/slide"

  /** The file name of the slide at position index: slide{index + 1}.xml. */
  function SlideFileName(index: nat): string
  {
    "slide" + NatToString(index + 1) + ".xml"
  }

  /** The relationship id of the slide at position index: rId{index + 11}. */
  function RelId(index: nat): string
  {
    "rId" + NatToString(index + 11)
  }

  /** The attribute naming the slide's part: PartName="/ppt/slides/slide{index + 1}.xml". */
  function PartNameAttribute(index: nat): string
  {
    "PartName=\"/ppt/slides/" + SlideFileName(index) + "\""
  }

  /** The attribute pointing a relationship at the slide: Target="slides/slide{index + 1}.xml". */
  function TargetAttribute(index: nat): string
  {
    "Target=\"slides/" + SlideFileName(index) + "\""
  }

  /** The attribute carrying a relationship id: {name}="rId{index + 11}". */
  function RelIdAttribute(name: string, index: nat): string
  {
    name + "=\"" + RelId(index) + "\""
  }

  /** The entry of [Content_Types].xml for one slide. */
  function ContentTypeOverride(index: nat): string
  {
    "<Override ContentType=\"" + SlideContentType + "\" " + PartNameAttribute(index) + "/>"
  }

  /** The entry of the slide list in ppt/presentation.xml for one slide. */
  function SlideIdEntry(index: nat): string
  {
    "<p:sldId " + RelIdAttribute("r:id", index) + " id=\"" + NatToString(index + 256) + "\"/>"
  }

  /** The entry of ppt/_rels/presentation.xml.rels for one slide. */
  function SlideRelationship(index: nat): string
  {
    "<Relationship " + TargetAttribute(index) + " Type=\"" + SlideRelationshipType + "\" " + RelIdAttribute("Id", index) + "/>"
  }

  /** The entries of slides 0 .. count - 1, one after another, as the loops append them. */
  function Entries(count: nat, entry: nat -> string): string
  {
    if count == 0 then "" else Entries(count - 1, entry) + entry(count - 1)
  }

  /** Every slide below the count has its entry in the text. */
  lemma {:induction false} EntriesHoldEachSlide(count: nat, entry: nat -> string, index: nat)
    requires index < count
    ensures Contains(Entries(count, entry), entry(index))
  {
    var before := Entries(count - 1, entry);
    if index == count - 1 {
      ContainsInfix(before, entry(index), "");
      assert before + entry(index) + "" == Entries(count, entry);
    } else {
      EntriesHoldEachSlide(count - 1, entry, index);
      ContainsExtend(before, entry(index), entry(count - 1));
    }
  }

  /** The text build_presentation has built after index slides: the opening tag and their entries. */
  function OpenSlideIdList(index: nat): string
  {
    "<p:sldIdLst>" + Entries(index, SlideIdEntry)
  }

  lemma OpenSlideIdListGrows(n: nat)
    ensures OpenSlideIdList(n + 1) == OpenSlideIdList(n) + SlideIdEntry(n)
  {
    assert Entries(n + 1, SlideIdEntry) == Entries(n, SlideIdEntry) + SlideIdEntry(n);
  }

  /** The fragment build_presentation splices in: the entries inside one p:sldIdLst element. */
  function SlideIdList(noSlides: nat): string
  {
    OpenSlideIdList(noSlides) + "</p:sldIdLst>"
  }

  method BuildContentTypes(noSlides: nat, template: string) returns (r: string)
    ensures r == ReplaceAll(template, ReplacementPos, Entries(noSlides, ContentTypeOverride))
  {
    var content := "";
    for index := 0 to noSlides
      invariant content == Entries(index, ContentTypeOverride)
    {
      content := content + ContentTypeOverride(index);
    }
    r := ReplaceAll(template, ReplacementPos, content);
  }

  method BuildPresentation(noSlides: nat, template: string) returns (r: string)
    ensures r == ReplaceAll(template, ReplacementPos, SlideIdList(noSlides))
  {
    var content := "<p:sldIdLst>";
    for index := 0 to noSlides
      invariant content == OpenSlideIdList(index)
    {
      OpenSlideIdListGrows(index);
      content := content + SlideIdEntry(index);
    }
    content := content + "</p:sldIdLst>";
    r := ReplaceAll(template, ReplacementPos, content);
  }

  method BuildPresentationRels(noSlides: nat, template: string) returns (r: string)
    ensures r == ReplaceAll(template, ReplacementPos, Entries(noSlides, SlideRelationship))
  {
    var content := "";
    for index := 0 to noSlides
      invariant content == Entries(index, SlideRelationship)
    {
      content := content + SlideRelationship(index);
    }
    r := ReplaceAll(template, ReplacementPos, content);
  }

  /**
   * A template holding the marker once gets the fragment in its place and
   * is otherwise unchanged.
   */
  lemma FragmentSplicedIntoTemplate(pre: string, post: string, fragment: string)
    requires forall i: nat :: OccursAt(pre + ReplacementPos + post, ReplacementPos, i) ==> i == |pre|
    ensures ReplaceAll(pre + ReplacementPos + post, ReplacementPos, fragment) == pre + fragment + post
  {
    ReplaceOnlyOccurrence(pre, ReplacementPos, post, fragment);
  }

  /** A template without the marker is returned as it is, whatever the slide count. */
  lemma TemplateWithoutMarker(template: string, fragment: string)
    requires Absent(template, ReplacementPos)
    ensures ReplaceAll(template, ReplacementPos, fragment) == template
  {
    ReplaceAbsent(template, ReplacementPos, fragment);
  }

  // ----------------------------------------- the numbers in the entries are distinct

  /** Two digit runs each followed by a non-digit: equal texts mean equal runs. */
  lemma DigitRunsEqual(a: string, q: string, b: string, q': string)
    requires AllDigits(a) && AllDigits(b) && |q| > 0 && |q'| > 0 && !IsDigit(q[0]) && !IsDigit(q'[0])
    requires a + q == b + q'
    ensures a == b
  {
    if |a| < |b| {
      DigitInside(a, q, b, q');
      assert false;
    } else if |b| < |a| {
      DigitInside(b, q', a, q);
      assert false;
    } else {
      assert a == (a + q)[..|a|] && b == (b + q')[..|b|];
    }
  }

  lemma DigitInside(a: string, q: string, b: string, q': string)
    requires AllDigits(b) && |a| < |b| && |q| > 0 && a + q == b + q'
    ensures IsDigit(q[0])
  {
    assert (a + q)[|a|] == q[0] && (b + q')[|a|] == b[|a|];
  }

  /** p + str(m) + q determines m, when q starts with a non-digit. */
  lemma NumberBetween(p: string, m: nat, q: string, n: nat, q': string)
    requires |q| > 0 && !IsDigit(q[0]) && |q'| > 0 && !IsDigit(q'[0])
    requires p + NatToString(m) + q == p + NatToString(n) + q'
    ensures m == n
  {
    var s := p + NatToString(m) + q;
    assert s[|p|..] == NatToString(m) + q;
    assert (p + NatToString(n) + q')[|p|..] == NatToString(n) + q';
    DigitRunsEqual(NatToString(m), q, NatToString(n), q');
    NatToStringInjective(m, n);
  }

  /** Different slides get different part names. */
  lemma SlideFileNamesDistinct(i: nat, j: nat)
    requires i != j
    ensures SlideFileName(i) != SlideFileName(j)
  {
    if SlideFileName(i) == SlideFileName(j) {
      NumberBetween("slide", i + 1, ".xml", j + 1, ".xml");
    }
  }

  /** Different slides get different relationship ids. */
  lemma RelIdsDistinct(i: nat, j: nat)
    requires i != j
    ensures RelId(i) != RelId(j)
  {
    assert RelId(i)[3..] == NatToString(i + 11);
    assert RelId(j)[3..] == NatToString(j + 11);
    if RelId(i) == RelId(j) {
      NatToStringInjective(i + 11, j + 11);
    }
  }

  /**
   * Each slide i is registered consistently in the three files: its content
   * type names the part /ppt/slides/slide{i+1}.xml, its relationship targets
   * that part and carries the id rId{i+11}, and its slide-list entry refers to
   * that id.
   */
  lemma PackageEntriesAgree(i: nat)
    ensures Contains(ContentTypeOverride(i), PartNameAttribute(i))
    ensures Contains(SlideRelationship(i), TargetAttribute(i))
    ensures Contains(SlideRelationship(i), RelIdAttribute("Id", i))
    ensures Contains(SlideIdEntry(i), RelIdAttribute("r:id", i))
    ensures Contains(PartNameAttribute(i), SlideFileName(i)) && Contains(TargetAttribute(i), SlideFileName(i))
  {
    ContainsInfix("<Override ContentType=\"" + SlideContentType + "\" ", PartNameAttribute(i), "/>");
    RelationshipNamesSlide(i);
    SlideIdEntryNamesRelationship(i);
    ContainsInfix("PartName=\"/ppt/slides/", SlideFileName(i), "\"");
    ContainsInfix("Target=\"slides/", SlideFileName(i), "\"");
  }

  lemma RelationshipNamesSlide(i: nat)
    ensures Contains(SlideRelationship(i), TargetAttribute(i))
    ensures Contains(SlideRelationship(i), RelIdAttribute("Id", i))
  {
    var p := "<Relationship ";
    var t := TargetAttribute(i);
    var m := " Type=\"" + SlideRelationshipType + "\" ";
    var id := RelIdAttribute("Id", i);
    assert SlideRelationship(i) == p + t + (m + id + "/>");
    ContainsInfix(p, t, m + id + "/>");
    assert SlideRelationship(i) == (p + t + m) + id + "/>";
    ContainsInfix(p + t + m, id, "/>");
  }

  lemma SlideIdEntryNamesRelationship(i: nat)
    ensures Contains(SlideIdEntry(i), RelIdAttribute("r:id", i))
  {
    var rest := " id=\"" + NatToString(i + 256) + "\"/>";
    assert SlideIdEntry(i) == "<p:sldId " + RelIdAttribute("r:id", i) + rest;
    ContainsInfix("<p:sldId ", RelIdAttribute("r:id", i), rest);
  }

  /** No two slides share a slide-list entry: their relationship ids differ. */
  lemma SlideIdEntriesDistinct(i: nat, j: nat)
    requires i != j
    ensures SlideIdEntry(i) != SlideIdEntry(j)
  {
    SlideIdEntryShape(i);
    SlideIdEntryShape(j);
    if SlideIdEntry(i) == SlideIdEntry(j) {
      NumberBetween("<p:sldId r:id=\"rId", i + 11, SlideIdTail(i), j + 11, SlideIdTail(j));
    }
  }

  /** What follows the relationship number in a slide-list entry. */
  function SlideIdTail(i: nat): string
  {
    "\" id=\"" + NatToString(i + 256) + "\"/>"
  }

  lemma SlideIdEntryShape(i: nat)
    ensures SlideIdEntry(i) == "<p:sldId r:id=\"rId" + NatToString(i + 11) + SlideIdTail(i)
    ensures |SlideIdTail(i)| > 0 && !IsDigit(SlideIdTail(i)[0])
  {
  }

  // ------------------------------------------------------ build_slide

  /** build_slide: the five placeholders replaced in this order; the template file is the parameter. */
  function BuildSlide(template: string, bookKor: string, bookEng: string, chapterVerse: string, textKor: string, textEng: string): string
  {
    var bookKorReplaced := ReplaceAll(template, "book_kor", bookKor);
    var bookEngReplaced := ReplaceAll(bookKorReplaced, "book_eng", bookEng);
    var chapterVerseReplaced := ReplaceAll(bookEngReplaced, "chapter_verse", chapterVerse);
    var textKorReplaced := ReplaceAll(chapterVerseReplaced, "text_kor", textKor);
    ReplaceAll(textKorReplaced, "text_eng", textEng)
  }

  /** A template with none of the placeholders comes back unchanged. */
  lemma SlideWithoutPlaceholders(template: string, bookKor: string, bookEng: string, chapterVerse: string, textKor: string, textEng: string)
    requires Absent(template, "book_kor") && Absent(template, "book_eng") && Absent(template, "chapter_verse")
    requires Absent(template, "text_kor") && Absent(template, "text_eng")
    ensures BuildSlide(template, bookKor, bookEng, chapterVerse, textKor, textEng) == template
  {
    ReplaceAbsent(template, "book_kor", bookKor);
    ReplaceAbsent(template, "book_eng", bookEng);
    ReplaceAbsent(template, "chapter_verse", chapterVerse);
    ReplaceAbsent(template, "text_kor", textKor);
    ReplaceAbsent(template, "text_eng", textEng);
  }

  /**
   * The replacements run one after another over the whole text, so a value
   * that itself spells a later placeholder is replaced again.
   */
  lemma ReplacementsCascade(textKor: string, textEng: string)
    ensures BuildSlide("book_kor", "text_kor", "English", "1:1", textKor, textEng) ==
      ReplaceAll(textKor, "text_eng", textEng)
  {
    ReplaceWhole("book_kor", "text_kor");
    ReplaceAbsentShort("text_kor", "book_eng", "English");
    assert ReplaceAll("text_kor", "chapter_verse", "1:1") == "text_kor";
    ReplaceWhole("text_kor", textKor);
  }

  lemma ReplaceWhole(s: string, rep: string)
    requires s != []
    ensures ReplaceAll(s, s, rep) == rep
  {
    assert s[..|s|] == s;
    assert rep + [] == rep;
  }

  lemma ReplaceAbsentShort(s: string, pat: string, rep: string)
    requires |s| == |pat| && s != pat
    ensures ReplaceAll(s, pat, rep) == s
  {
    assert s[..|pat|] == s;
    assert s == [s[0]] + s[1..];
  }

  // ------------------------------------------------------ build

  /** The two texts of one slide, as get_bible_text builds them. */
  datatype SlideText = SlideText(textKor: string, textEng: string)

  /** The template files build reads. */
  datatype Templates = Templates(contentTypes: string, presentation: string, presentationRels: string, slide: string, slideRels: string)

  /** A file build writes: its path and its contents. */
  datatype Part = Part(path: string, content: string)

  /** The name build returns: `f"{book_eng} {chapter_verse with ':' as '_'}.pptx"`. */
  function OutputFilename(bookEng: string, chapterVerse: string): (name: string)
  {
    bookEng + " " + ReplaceAll(chapterVerse, ":", "_") + ".pptx"
  }

  /** The three package files written before the slides. */
  function PackageHeader(noSlides: nat, templates: Templates, workingDir: string): seq<Part>
  {
    [ Part(workingDir + "/[Content_Types].xml", ReplaceAll(templates.contentTypes, ReplacementPos, Entries(noSlides, ContentTypeOverride))),
      Part(workingDir + "/ppt/presentation.xml", ReplaceAll(templates.presentation, ReplacementPos, SlideIdList(noSlides))),
      Part(workingDir + "/ppt/_rels/presentation.xml.rels", ReplaceAll(templates.presentationRels, ReplacementPos, Entries(noSlides, SlideRelationship))) ]
  }

  function SlidePath(workingDir: string, index: nat): string
  {
    workingDir + "/ppt/slides/" + SlideFileName(index)
  }

  /** The slide file and its relationships file for each text, in order. */
  function SlideParts(bookKor: string, bookEng: string, chapterVerse: string, texts: seq<SlideText>, templates: Templates, workingDir: string): seq<Part>
  {
    if texts == [] then []
    else
      var idx := |texts| - 1;
      SlideParts(bookKor, bookEng, chapterVerse, texts[..idx], templates, workingDir) +
        [ Part(SlidePath(workingDir, idx), BuildSlide(templates.slide, bookKor, bookEng, chapterVerse, texts[idx].textKor, texts[idx].textEng)),
          Part(workingDir + "/ppt/slides/_rels/" + SlideFileName(idx) + ".rels", templates.slideRels) ]
  }

  /**
   * build: the error file's path for a missing or empty list; otherwise the
   * output name, with the files written into the working directory. The
   * working directory (named after the clock) and the template contents are
   * parameters.
   */
  method Build(bookKor: string, bookEng: string, chapterVerse: string, textList: Option<seq<SlideText>>, templates: Templates, workingDir: string)
    returns (outputFilename: string, written: seq<Part>)
    ensures textList.None? || |textList.value| == 0 ==> outputFilename == PptxDataErrorFile && written == []
    ensures textList.Some? && |textList.value| > 0 ==>
      && outputFilename == OutputFilename(bookEng, chapterVerse)
      && written == PackageHeader(|textList.value|, templates, workingDir) + SlideParts(bookKor, bookEng, chapterVerse, textList.value, templates, workingDir)
  {
    if textList.None? || |textList.value| <= 0 {
      return PptxDataErrorFile, [];
    }
    var texts := textList.value;
    var noSlides := |texts|;
    var contentTypesContent := BuildContentTypes(noSlides, templates.contentTypes);
    var presentationContent := BuildPresentation(noSlides, templates.presentation);
    var presentationRelsContent := BuildPresentationRels(noSlides, templates.presentationRels);
    var header := [ Part(workingDir + "/[Content_Types].xml", contentTypesContent),
                    Part(workingDir + "/ppt/presentation.xml", presentationContent),
                    Part(workingDir + "/ppt/_rels/presentation.xml.rels", presentationRelsContent) ];
    assert header == PackageHeader(noSlides, templates, workingDir);
    var slides := WriteSlides(bookKor, bookEng, chapterVerse, texts, templates, workingDir);
    written := header + slides;
    var chapterVerseFilename := ReplaceAll(chapterVerse, ":", "_");
    outputFilename := bookEng + " " + chapterVerseFilename + ".pptx";
  }

  lemma SlidePartsGrow(bookKor: string, bookEng: string, chapterVerse: string, texts: seq<SlideText>, idx: nat, templates: Templates, workingDir: string)
    requires idx < |texts|
    ensures SlideParts(bookKor, bookEng, chapterVerse, texts[..idx + 1], templates, workingDir) ==
      SlideParts(bookKor, bookEng, chapterVerse, texts[..idx], templates, workingDir) +
        [ Part(SlidePath(workingDir, idx), BuildSlide(templates.slide, bookKor, bookEng, chapterVerse, texts[idx].textKor, texts[idx].textEng)),
          Part(workingDir + "/ppt/slides/_rels/" + SlideFileName(idx) + ".rels", templates.slideRels) ]
  {
    assert texts[..idx + 1][..idx] == texts[..idx];
  }

  /** The loop of build that fills one slide file per text and copies its relationships file. */
  method WriteSlides(bookKor: string, bookEng: string, chapterVerse: string, texts: seq<SlideText>, templates: Templates, workingDir: string)
    returns (written: seq<Part>)
    ensures written == SlideParts(bookKor, bookEng, chapterVerse, texts, templates, workingDir)
  {
    written := [];
    for idx := 0 to |texts|
      invariant written == SlideParts(bookKor, bookEng, chapterVerse, texts[..idx], templates, workingDir)
    {
      SlidePartsGrow(bookKor, bookEng, chapterVerse, texts, idx, templates, workingDir);
      var slideContent := BuildSlide(templates.slide, bookKor, bookEng, chapterVerse, texts[idx].textKor, texts[idx].textEng);
      written := written + [Part(SlidePath(workingDir, idx), slideContent), Part(workingDir + "/ppt/slides/_rels/" + SlideFileName(idx) + ".rels", templates.slideRels)];
    }
    assert texts[..|texts|] == texts;
  }

  /** Slide i of the list is written, filled with text i, to slide{i+1}.xml. */
  lemma {:induction false} SlidePartsInOrder(bookKor: string, bookEng: string, chapterVerse: string, texts: seq<SlideText>, templates: Templates, workingDir: string)
    ensures |SlideParts(bookKor, bookEng, chapterVerse, texts, templates, workingDir)| == 2 * |texts|
    ensures forall i :: 0 <= i < |texts| ==>
      SlideParts(bookKor, bookEng, chapterVerse, texts, templates, workingDir)[2 * i] ==
        Part(SlidePath(workingDir, i), BuildSlide(templates.slide, bookKor, bookEng, chapterVerse, texts[i].textKor, texts[i].textEng))
  {
    if texts != [] {
      var n := |texts| - 1;
      SlidePartsInOrder(bookKor, bookEng, chapterVerse, texts[..n], templates, workingDir);
    }
  }

  /** No two slides are written to the same file. */
  lemma SlidePathsDistinct(workingDir: string, i: nat, j: nat)
    requires i != j
    ensures SlidePath(workingDir, i) != SlidePath(workingDir, j)
  {
    SlideFileNamesDistinct(i, j);
    var p := workingDir + "/ppt/slides/";
    assert SlidePath(workingDir, i)[|p|..] == SlideFileName(i);
    assert SlidePath(workingDir, j)[|p|..] == SlideFileName(j);
  }

  /** The output name keeps the English book name and holds no ':'. */
  lemma OutputFilenameShape(bookEng: string, chapterVerse: string)
    ensures ':' !in ReplaceAll(chapterVerse, ":", "_")
    ensures OutputFilename(bookEng, chapterVerse)[..|bookEng| + 1] == bookEng + " "
    ensures ':' !in bookEng ==> ':' !in OutputFilename(bookEng, chapterVerse)
  {
    ReplaceCharRemoves(chapterVerse, ':', '_');
    var name := OutputFilename(bookEng, chapterVerse);
    assert name == (bookEng + " ") + (ReplaceAll(chapterVerse, ":", "_") + ".pptx");
  }

  /** The module's demonstration call: 잠언 18:12,13 is written as "Proverbs 18_12,13.pptx". */
  lemma DemonstrationFilename()
    ensures OutputFilename("Proverbs", "18:12,13") == "Proverbs 18_12,13.pptx"
  {
    ReplaceCharPointwise("18:12,13", ':', '_');
    assert ReplaceAll("18:12,13", ":", "_") == "18_12,13";
  }
}

/**
 * app.py: the two pieces of logic between the web routes and the parser,
 * reader and slide builder. parse_message turns the references found in a
 * message into "{full book name} {chapter:verse}" lines; get_bible_text
 * splits such a line again and gathers one Korean and one English text per
 * verse.
 */
module App {
  import opened Wrappers
  import opened Strings
  import opened Extractor
  import opened BibleReader
  import opened PptxBuilder

  // ------------------------------------------------ the two book tables

  lemma OldTestamentFullnamesKnown()
    ensures forall abbr :: abbr in OldTestamentAbbreviations ==> OldTestamentAbbreviations[abbr] in OldTestamentBooks
  {
  }

  lemma NewTestamentFullnamesKnown()
    ensures forall abbr :: abbr in NewTestamentAbbreviations ==> NewTestamentAbbreviations[abbr] in NewTestamentBooks
  {
  }

  /**
   * Every full name the abbreviation table yields is a book the reader knows,
   * so get_bible_text can look up the English name of a line parse_message
   * produced.
   */
  lemma FullnamesAreReaderBooks()
    ensures forall abbr :: abbr in BookAbbrToFullname ==> IsValid(BookAbbrToFullname[abbr])
  {
    OldTestamentFullnamesKnown();
    NewTestamentFullnamesKnown();
  }

  // ------------------------------------------------------ parse_message

  /** The two extract_content calls on one matched span: the abbreviation, and the chapter:verse token with '~' as '-'. */
  function CandidateParts(span: string): (string, string)
    requires IsReferenceSpan(span)
  {
    var (abbr, chapterVerse) := SplitSpan(span);
    (abbr, ExtractContent([chapterVerse]).value)
  }

  /**
   * The test of parse_message on what extract_chapter and extract_verses
   * gave: ValueError when either raised; otherwise the line, or None when the
   * span is dropped.
   */
  function Keep(bookFullname: Option<string>, chapter: Result<int>, verses: Result<seq<int>>, chapterVerse: string): Result<Option<string>>
  {
    match chapter
    case ValueError => ValueError
    case Ok(extractedChapter) =>
      match verses
      case ValueError => ValueError
      case Ok(extractedVerses) =>
        if bookFullname.Some? && extractedChapter > 0 && |extractedVerses| > 0 then
          Ok(Some(bookFullname.value + " " + chapterVerse))
        else Ok(None)
  }

  /** One iteration of the loop in parse_message. */
  function Resolve(span: string): Result<Option<string>>
    requires IsReferenceSpan(span)
  {
    var (abbr, chapterVerse) := CandidateParts(span);
    Keep(GetBookFullname(abbr), ExtractChapter(chapterVerse), VersesOf(chapterVerse), chapterVerse)
  }

  /** The chapter:verse part of a matched span is in the grammar, '~'-free, and its chapter never raises. */
  lemma CandidateChapterVerse(span: string)
    requires IsReferenceSpan(span)
    ensures var chapterVerse := CandidateParts(span).1;
      IsChapterVerseToken(chapterVerse) && '~' !in chapterVerse && ExtractChapter(chapterVerse).Ok?
  {
    SplitSpanMatches(span);
    DashedTokenStillMatches(SplitSpan(span).1);
    MatchedTokenHasChapter(CandidateParts(span).1);
  }

  /** A span raises exactly when its verse spec does. */
  lemma ResolveRaises(span: string)
    requires IsReferenceSpan(span)
    ensures Resolve(span).ValueError? <==> VersesOf(CandidateParts(span).1).ValueError?
  {
    CandidateChapterVerse(span);
  }

  /**
   * A span is kept exactly when its abbreviation resolves, its chapter is
   * positive and its verse list is non-empty; its line is then the full
   * name, a space and the chapter:verse token.
   */
  lemma ResolveKeeps(span: string)
    requires IsReferenceSpan(span)
    ensures var (abbr, chapterVerse) := CandidateParts(span);
      && (Resolve(span).Ok? && Resolve(span).value.Some? <==>
            && GetBookFullname(abbr).Some?
            && ExtractChapter(chapterVerse).Ok? && ExtractChapter(chapterVerse).value > 0
            && VersesOf(chapterVerse).Ok? && |VersesOf(chapterVerse).value| > 0)
      && (Resolve(span).Ok? && Resolve(span).value.Some? ==>
            Resolve(span).value.value == GetBookFullname(abbr).value + " " + chapterVerse)
  {
  }

  /** The full name on a line parse_message produced is a book the reader knows. */
  lemma FullnameIsReaderBook(abbr: string)
    requires GetBookFullname(abbr).Some?
    ensures IsValid(GetBookFullname(abbr).value)
  {
    FullnamesAreReaderBooks();
  }

  /** The lines for a list of outcomes, or ValueError when one of them is. */
  function Collect(outcomes: seq<Result<Option<string>>>): Result<seq<string>>
  {
    if outcomes == [] then Ok([])
    else
      match Collect(outcomes[..|outcomes| - 1])
      case ValueError => ValueError
      case Ok(lines) =>
        match outcomes[|outcomes| - 1]
        case ValueError => ValueError
        case Ok(None) => Ok(lines)
        case Ok(Some(line)) => Ok(lines + [line])
  }

  /** f applied to each element of s, in order. */
  function MapSeq<A, B>(s: seq<A>, f: A --> B): seq<B>
    requires forall i :: 0 <= i < |s| ==> f.requires(s[i])
  {
    seq(|s|, i requires 0 <= i < |s| => f(s[i]))
  }

  lemma MapSeqConcat<A, B>(a: seq<A>, b: seq<A>, f: A --> B)
    requires forall i :: 0 <= i < |a| ==> f.requires(a[i])
    requires forall i :: 0 <= i < |b| ==> f.requires(b[i])
    ensures forall i :: 0 <= i < |a + b| ==> f.requires((a + b)[i])
    ensures MapSeq(a + b, f) == MapSeq(a, f) + MapSeq(b, f)
  {
    assert forall i :: 0 <= i < |a + b| ==> (a + b)[i] == if i < |a| then a[i] else b[i - |a|];
  }

  lemma MapSeqSnoc<A, B>(s: seq<A>, f: A --> B, i: nat)
    requires forall j :: 0 <= j < |s| ==> f.requires(s[j])
    requires i < |s|
    ensures MapSeq(s[..i + 1], f) == MapSeq(s[..i], f) + [f(s[i])]
  {
  }

  lemma TakeSnoc<T>(s: seq<T>, i: nat)
    requires i < |s|
    ensures s[..i + 1] == s[..i] + [s[i]]
  {
  }

  /** The outcome of each span, in order. */
  function Outcomes(spans: seq<string>): seq<Result<Option<string>>>
    requires forall i :: 0 <= i < |spans| ==> IsReferenceSpan(spans[i])
  {
    MapSeq(spans, Resolve)
  }

  /** What parse_message replies for the spans findall returned, or ValueError if one of them raises. */
  function ParseAll(spans: seq<string>): Result<seq<string>>
    requires forall i :: 0 <= i < |spans| ==> IsReferenceSpan(spans[i])
  {
    Collect(Outcomes(spans))
  }

  lemma CollectSnoc(outcomes: seq<Result<Option<string>>>, outcome: Result<Option<string>>)
    ensures Collect(outcomes + [outcome]) ==
      match Collect(outcomes)
      case ValueError => ValueError
      case Ok(lines) =>
        match outcome
        case ValueError => ValueError
        case Ok(None) => Ok(lines)
        case Ok(Some(line)) => Ok(lines + [line])
  {
    assert (outcomes + [outcome])[..|outcomes|] == outcomes;
  }

  /** The list raises exactly when one of its outcomes does, wherever it stands. */
  lemma {:induction false} CollectRaises(outcomes: seq<Result<Option<string>>>)
    ensures Collect(outcomes).ValueError? <==> exists i :: 0 <= i < |outcomes| && outcomes[i].ValueError?
  {
    if outcomes != [] {
      var init := outcomes[..|outcomes| - 1];
      CollectRaises(init);
      if Collect(init).ValueError? {
        var i :| 0 <= i < |init| && init[i].ValueError?;
        assert outcomes[i] == init[i];
      }
      if exists i :: 0 <= i < |outcomes| && outcomes[i].ValueError? {
        var i :| 0 <= i < |outcomes| && outcomes[i].ValueError?;
        if i < |init| {
          assert init[i] == outcomes[i];
        }
      }
    }
  }

  /** At most one line per outcome. */
  lemma {:induction false} CollectBound(outcomes: seq<Result<Option<string>>>)
    ensures Collect(outcomes).Ok? ==> |Collect(outcomes).value| <= |outcomes|
  {
    if outcomes != [] {
      CollectBound(outcomes[..|outcomes| - 1]);
    }
  }

  /** The lines for a + b are those for a, then those for b. */
  lemma {:induction false} CollectConcat(a: seq<Result<Option<string>>>, b: seq<Result<Option<string>>>)
    ensures Collect(a).Ok? && Collect(b).Ok? ==> Collect(a + b) == Ok(Collect(a).value + Collect(b).value)
  {
    if b == [] {
      assert a + b == a;
      assert Collect(a).Ok? ==> Collect(a).value + [] == Collect(a).value;
    } else {
      var init := b[..|b| - 1];
      var last := b[|b| - 1];
      CollectConcat(a, init);
      assert a + b == (a + init) + [last];
      CollectSnoc(a + init, last);
      CollectSnoc(init, last);
      assert b == init + [last];
      if Collect(a).Ok? && Collect(b).Ok? {
        var va := Collect(a).value;
        var vi := Collect(init).value;
        if last.Ok? && last.value.Some? {
          assert va + vi + [last.value.value] == va + (vi + [last.value.value]);
        }
      }
    }
  }

  /** Every line comes from an outcome that kept it. */
  lemma {:induction false} CollectLinesKept(outcomes: seq<Result<Option<string>>>)
    ensures Collect(outcomes).Ok? ==> forall j :: 0 <= j < |Collect(outcomes).value| ==>
      exists i :: 0 <= i < |outcomes| && outcomes[i] == Ok(Some(Collect(outcomes).value[j]))
  {
    if outcomes != [] {
      var init := outcomes[..|outcomes| - 1];
      CollectLinesKept(init);
      if Collect(outcomes).Ok? {
        var lines := Collect(outcomes).value;
        forall j | 0 <= j < |lines|
          ensures exists i :: 0 <= i < |outcomes| && outcomes[i] == Ok(Some(lines[j]))
        {
          if j < |Collect(init).value| {
            var i :| 0 <= i < |init| && init[i] == Ok(Some(Collect(init).value[j]));
            assert outcomes[i] == init[i];
          } else {
            assert outcomes[|outcomes| - 1] == Ok(Some(lines[j]));
          }
        }
      }
    }
  }

  /** parse_message raises exactly when one of the spans raises. */
  lemma ParseAllRaises(spans: seq<string>)
    requires forall i :: 0 <= i < |spans| ==> IsReferenceSpan(spans[i])
    ensures ParseAll(spans).ValueError? <==> exists i :: 0 <= i < |spans| && Resolve(spans[i]).ValueError?
  {
    MapRaises(spans, Resolve);
  }

  lemma MapRaises<A>(s: seq<A>, f: A --> Result<Option<string>>)
    requires forall i :: 0 <= i < |s| ==> f.requires(s[i])
    ensures Collect(MapSeq(s, f)).ValueError? <==> exists i :: 0 <= i < |s| && f(s[i]).ValueError?
  {
    CollectRaises(MapSeq(s, f));
    if exists i :: 0 <= i < |s| && f(s[i]).ValueError? {
      var i :| 0 <= i < |s| && f(s[i]).ValueError?;
      assert MapSeq(s, f)[i].ValueError?;
    }
  }

  /** The reply is never longer than the list of matches, and each of its lines is the line of one kept span. */
  lemma ParseAllLines(spans: seq<string>)
    requires forall i :: 0 <= i < |spans| ==> IsReferenceSpan(spans[i])
    ensures ParseAll(spans).Ok? ==> |ParseAll(spans).value| <= |spans|
    ensures ParseAll(spans).Ok? ==> forall j :: 0 <= j < |ParseAll(spans).value| ==>
      exists i :: 0 <= i < |spans| && Resolve(spans[i]) == Ok(Some(ParseAll(spans).value[j]))
  {
    MapLines(spans, Resolve);
  }

  lemma MapLines<A>(s: seq<A>, f: A --> Result<Option<string>>)
    requires forall i :: 0 <= i < |s| ==> f.requires(s[i])
    ensures Collect(MapSeq(s, f)).Ok? ==> |Collect(MapSeq(s, f)).value| <= |s|
    ensures Collect(MapSeq(s, f)).Ok? ==> forall j :: 0 <= j < |Collect(MapSeq(s, f)).value| ==>
      exists i :: 0 <= i < |s| && f(s[i]) == Ok(Some(Collect(MapSeq(s, f)).value[j]))
  {
    CollectBound(MapSeq(s, f));
    CollectLinesKept(MapSeq(s, f));
  }

  /** Matches are processed in order: the reply for a + b is the reply for a, then the reply for b. */
  lemma ParseAllConcat(a: seq<string>, b: seq<string>)
    requires forall i :: 0 <= i < |a| ==> IsReferenceSpan(a[i])
    requires forall i :: 0 <= i < |b| ==> IsReferenceSpan(b[i])
    ensures forall i :: 0 <= i < |a + b| ==> IsReferenceSpan((a + b)[i])
    ensures ParseAll(a).Ok? && ParseAll(b).Ok? ==> ParseAll(a + b) == Ok(ParseAll(a).value + ParseAll(b).value)
  {
    MapSeqConcat(a, b, Resolve);
    CollectConcat(Outcomes(a), Outcomes(b));
  }

  /**
   * parse_message, from the list findall returned: the line of each kept
   * span in order, ValueError (a failed request) as soon as one span raises.
   */
  method ParseMessage(bookChapterVerseList: seq<string>) returns (r: Result<seq<string>>)
    requires forall i :: 0 <= i < |bookChapterVerseList| ==> IsReferenceSpan(bookChapterVerseList[i])
    ensures r == ParseAll(bookChapterVerseList)
  {
    ghost var outcomes := Outcomes(bookChapterVerseList);
    var results := [];
    for i := 0 to |bookChapterVerseList|
      invariant Collect(outcomes[..i]) == Ok(results)
    {
      var bookChapterVerse := bookChapterVerseList[i];
      var outcome := ResolveSpan(bookChapterVerse);
      assert outcome == outcomes[i];
      TakeSnoc(outcomes, i);
      CollectSnoc(outcomes[..i], outcome);
      if outcome.ValueError? {
        CollectRaises(outcomes);
        return ValueError;
      }
      if outcome.value.Some? {
        results := results + [outcome.value.value];
      }
    }
    assert outcomes[..|bookChapterVerseList|] == outcomes;
    r := Ok(results);
  }

  /**
   * The body of the loop in parse_message for one span: ValueError where
   * extract_chapter or extract_verses raises, the line when the span is kept.
   */
  method ResolveSpan(bookChapterVerse: string) returns (outcome: Result<Option<string>>)
    requires IsReferenceSpan(bookChapterVerse)
    ensures outcome == Resolve(bookChapterVerse)
  {
    var (bookAbbr, matched) := SplitSpan(bookChapterVerse);
    var chapterVerse := ExtractContent([matched]).value;
    var bookFullname := GetBookFullname(bookAbbr);
    var extractedChapter := ExtractChapter(chapterVerse);
    if extractedChapter.ValueError? {
      return ValueError;
    }
    var extractedVerses := ExtractVerses(chapterVerse);
    if extractedVerses.ValueError? {
      return ValueError;
    }
    if bookFullname.Some? && extractedChapter.value > 0 && |extractedVerses.value| > 0 {
      var currResult := bookFullname.value + " " + chapterVerse;
      return Ok(Some(currResult));
    }
    return Ok(None);
  }

  /**
   * A span whose abbreviation resolves, whose chapter is positive and whose
   * verse list is non-empty is kept, as the full name, a space and its
   * chapter:verse token.
   */
  lemma ResolveKept(span: string, abbr: string, chapterVerse: string)
    requires IsSpanOf(span, abbr, chapterVerse) && '~' !in chapterVerse
    requires GetBookFullname(abbr).Some?
    requires ExtractChapter(chapterVerse).Ok? && ExtractChapter(chapterVerse).value > 0
    requires VersesOf(chapterVerse).Ok? && |VersesOf(chapterVerse).value| > 0
    ensures IsReferenceSpan(span)
    ensures Resolve(span) == Ok(Some(GetBookFullname(abbr).value + " " + chapterVerse))
  {
    SplitSpanUnique(span, abbr, chapterVerse);
    ExtractContentUnchanged(chapterVerse);
  }

  /**
   * The first reference of the extractor's demonstration text: 살후1:8-9 becomes 데살로니가후서 1:8-9.
   * The span is a parameter fixed by the requires, and the literal concatenation sits in
   * DemonstrationLine, so that the verifier does not unfold the tables and the scanner
   * on the literal text all at once, which makes the proof too costly.
   */
  lemma DemonstrationMessage(span: string)
    requires span == "살후1:8-9"
    ensures IsReferenceSpan(span)
    ensures ParseAll([span]) == Ok(["데살로니가후서 1:8-9"])
  {
    DemonstrationResolve(span);
    SingleSpan(span);
  }

  /** A message with one match gets that match's outcome. */
  lemma SingleSpan(span: string)
    requires IsReferenceSpan(span)
    ensures Resolve(span).Ok? && Resolve(span).value.Some? ==> ParseAll([span]) == Ok([Resolve(span).value.value])
    ensures Resolve(span) == Ok(None) ==> ParseAll([span]) == Ok([])
  {
    MapSingle(span, Resolve);
    CollectOne(Resolve(span));
  }

  lemma CollectOne(outcome: Result<Option<string>>)
    ensures outcome.Ok? && outcome.value.Some? ==> Collect([outcome]) == Ok([outcome.value.value])
    ensures outcome == Ok(None) ==> Collect([outcome]) == Ok([])
  {
    CollectSnoc([], outcome);
    assert [] + [outcome] == [outcome];
    if outcome.Ok? && outcome.value.Some? {
      var noLines: seq<string> := [];
      assert noLines + [outcome.value.value] == [outcome.value.value];
    }
  }

  lemma MapSingle<A, B>(x: A, f: A --> B)
    requires f.requires(x)
    ensures MapSeq([x], f) == [f(x)]
  {
  }

  lemma DemonstrationResolve(span: string)
    requires span == "살후1:8-9"
    ensures IsReferenceSpan(span)
    ensures Resolve(span) == Ok(Some("데살로니가후서 1:8-9"))
  {
    DemonstrationSpan();
    DemonstrationChapter1();
    DemonstrationVerses89();
    DemonstrationFullname();
    ResolveKept(span, "살후", "1:8-9");
    DemonstrationLine();
  }

  lemma DemonstrationLine()
    ensures "데살로니가후서" + " " + "1:8-9" == "데살로니가후서 1:8-9"
  {
  }

  lemma DemonstrationFullname()
    ensures GetBookFullname("살후") == Some("데살로니가후서")
  {
  }

  lemma DemonstrationSpan()
    ensures IsSpanOf("살후1:8-9", "살후", "1:8-9")
  {
    assert IndexOf("1:8-9", ':') == 1;
    assert "살후" + "1:8-9" == "살후1:8-9";
  }

  lemma DemonstrationChapter1()
    ensures ExtractChapter("1:8-9") == Ok(1)
  {
    assert NatToString(1) == "1";
    assert "1" + ":" + "8-9" == "1:8-9";
    ExtractChapterRoundTrip(1, "8-9");
  }

  lemma DemonstrationVerses89()
    ensures VersesOf("1:8-9") == Ok([8, 9])
  {
    assert Decimal("8") == 8 && Decimal("9") == 9;
    assert Range(8, 10) == [8, 9];
    assert "1" + ":" + ("8" + ['-'] + "9") == "1:8-9";
    RangeVerses("1", "8", '-', "9");
  }

  lemma ExtractContentUnchanged(s: string)
    requires '~' !in s
    ensures ExtractContent([s]) == Some(s)
  {
    assert Absent(s, "~") by {
      forall i: nat | i + 1 <= |s|
        ensures !OccursAt(s, "~", i)
      {
        assert s[i..i + 1] == [s[i]];
      }
    }
    ReplaceAbsent(s, "~", "-");
  }

  // ----------------------------------------------------- get_bible_text

  /** The dict get_bible_text returns for a well-formed word. */
  datatype BibleText = BibleText(bookKor: string, bookEng: Option<string>, chapterVerse: string, textList: seq<SlideText>)

  /** The reply of get_bible_text: the "Error" reply for a word that is not two parts, or the texts. */
  datatype Response = ErrorResponse | Found(bibleText: BibleText)

  /** `dict.get`: the value of a key, or None. */
  function Get(m: map<string, string>, key: string): Option<string>
  {
    if key in m then Some(m[key]) else None
  }

  /** How an f-string renders the result of `dict.get`: a missing text prints as "None". */
  function Rendered(text: Option<string>): string
  {
    match text
    case Some(t) => t
    case None => "None"
  }

  /** The entry of text_list for one verse. */
  function VerseEntry(verse: int, korText: map<string, string>, engText: map<string, string>): SlideText
  {
    var verseStr := IntToString(verse);
    SlideText(verseStr + ". " + Rendered(Get(korText, verseStr)), verseStr + ". " + Rendered(Get(engText, verseStr)))
  }

  /** text_list after the loop over verse_list: one entry per verse, in the order of the list. */
  function TextList(verseList: seq<int>, korText: map<string, string>, engText: map<string, string>): seq<SlideText>
  {
    seq(|verseList|, i requires 0 <= i < |verseList| => VerseEntry(verseList[i], korText, engText))
  }

  /**
   * get_bible_text after the split, for the book name and the chapter:verse
   * token: ValueError where extract_chapter or extract_verses raises,
   * otherwise the texts of the listed verses.
   */
  function Gather(bookFullname: string, chapterVerse: string, korRows: seq<Row>, engRows: seq<Row>, removeAnnotation: bool): Result<Response>
  {
    match ExtractChapter(chapterVerse)
    case ValueError => ValueError
    case Ok(_) =>
      match VersesOf(chapterVerse)
      case ValueError => ValueError
      case Ok(verseList) =>
        var korText := RefinedTextOf(bookFullname, korRows, removeAnnotation);
        var engText := RefinedTextOf(bookFullname, engRows, removeAnnotation);
        Ok(Found(BibleText(bookFullname, GetEngBook(bookFullname), chapterVerse, TextList(verseList, korText, engText))))
  }

  /**
   * get_bible_text on a word, with the rows the Korean and the English
   * database return for the query as parameters: the "Error" reply unless
   * the word splits at ' ' into exactly two parts, otherwise what Gather
   * gives for those parts.
   */
  function BibleTextOf(bibleWord: string, korRows: seq<Row>, engRows: seq<Row>, removeAnnotation: bool): Result<Response>
  {
    var divided := Split(bibleWord, ' ');
    if |divided| != 2 then Ok(ErrorResponse)
    else Gather(divided[0], divided[1], korRows, engRows, removeAnnotation)
  }

  method GetBibleText(bibleWord: string, korRows: seq<Row>, engRows: seq<Row>, removeAnnotation: bool) returns (r: Result<Response>)
    ensures r == BibleTextOf(bibleWord, korRows, engRows, removeAnnotation)
  {
    var divided := Split(bibleWord, ' ');
    if |divided| != 2 {
      return Ok(ErrorResponse);
    }
    var bookFullname := divided[0];
    var chapterVerse := divided[1];
    r := GatherTexts(bookFullname, chapterVerse, korRows, engRows, removeAnnotation);
  }

  /** The part of get_bible_text after the split check. */
  method GatherTexts(bookFullname: string, chapterVerse: string, korRows: seq<Row>, engRows: seq<Row>, removeAnnotation: bool) returns (r: Result<Response>)
    ensures r == Gather(bookFullname, chapterVerse, korRows, engRows, removeAnnotation)
  {
    var chapter := ExtractChapter(chapterVerse);
    if chapter.ValueError? {
      return ValueError;
    }
    var verseList := ExtractVerses(chapterVerse);
    if verseList.ValueError? {
      return ValueError;
    }
    var korText := GetText(bookFullname, korRows, removeAnnotation);
    var engText := GetText(bookFullname, engRows, removeAnnotation);
    var bookEng := GetEngBook(bookFullname);
    var textList := BuildTextList(verseList.value, korText, engText);
    r := Ok(Found(BibleText(bookFullname, bookEng, chapterVerse, textList)));
  }

  /** The loop of get_bible_text that fills text_list. */
  method BuildTextList(verseList: seq<int>, korText: map<string, string>, engText: map<string, string>) returns (textList: seq<SlideText>)
    ensures textList == TextList(verseList, korText, engText)
  {
    textList := [];
    for i := 0 to |verseList|
      invariant textList == TextList(verseList[..i], korText, engText)
    {
      var verseStr := IntToString(verseList[i]);
      var currText := SlideText(verseStr + ". " + Rendered(Get(korText, verseStr)), verseStr + ". " + Rendered(Get(engText, verseStr)));
      assert currText == VerseEntry(verseList[i], korText, engText);
      TextListSnoc(verseList, korText, engText, i);
      textList := textList + [currText];
    }
    assert verseList[..|verseList|] == verseList;
  }

  lemma TextListSnoc(verseList: seq<int>, korText: map<string, string>, engText: map<string, string>, i: nat)
    requires i < |verseList|
    ensures TextList(verseList[..i + 1], korText, engText) == TextList(verseList[..i], korText, engText) + [VerseEntry(verseList[i], korText, engText)]
  {
  }

  /** The "Error" reply comes exactly for a word without exactly one space. */
  lemma SplitCheck(bibleWord: string, korRows: seq<Row>, engRows: seq<Row>, removeAnnotation: bool)
    ensures BibleTextOf(bibleWord, korRows, engRows, removeAnnotation) == Ok(ErrorResponse) <==> Count(bibleWord, ' ') != 1
  {
  }

  /** A word with exactly one space is its two halves around that space. */
  lemma SplitWord(bibleWord: string)
    requires |Split(bibleWord, ' ')| == 2
    ensures var divided := Split(bibleWord, ' ');
      && bibleWord == divided[0] + " " + divided[1]
      && ' ' !in divided[0] && ' ' !in divided[1]
  {
    var divided := Split(bibleWord, ' ');
    JoinSplit(bibleWord, ' ');
    assert divided[..1] == [divided[0]];
  }

  /**
   * The entry of a verse starts with the verse number and ". ", followed by
   * the refined text of that verse, or by "None" where the database had none.
   */
  lemma VerseEntryText(verse: int, korText: map<string, string>, engText: map<string, string>)
    ensures var verseStr := IntToString(verse);
      var entry := VerseEntry(verse, korText, engText);
      && |entry.textKor| >= |verseStr| + 2 && entry.textKor[..|verseStr| + 2] == verseStr + ". "
      && |entry.textEng| >= |verseStr| + 2 && entry.textEng[..|verseStr| + 2] == verseStr + ". "
      && (verseStr in korText ==> entry.textKor[|verseStr| + 2..] == korText[verseStr])
      && (verseStr !in korText ==> entry.textKor[|verseStr| + 2..] == "None")
      && (verseStr in engText ==> entry.textEng[|verseStr| + 2..] == engText[verseStr])
      && (verseStr !in engText ==> entry.textEng[|verseStr| + 2..] == "None")
  {
    var verseStr := IntToString(verse);
    var kor := Rendered(Get(korText, verseStr));
    var eng := Rendered(Get(engText, verseStr));
    assert (verseStr + ". " + kor)[..|verseStr| + 2] == verseStr + ". ";
    assert (verseStr + ". " + kor)[|verseStr| + 2..] == kor;
    assert (verseStr + ". " + eng)[..|verseStr| + 2] == verseStr + ". ";
    assert (verseStr + ". " + eng)[|verseStr| + 2..] == eng;
  }

  /**
   * A found reply holds the two halves of the word, the English name the
   * table gives the book, and one entry per verse of the chapter:verse part,
   * in that order.
   */
  lemma FoundTexts(bibleWord: string, korRows: seq<Row>, engRows: seq<Row>, removeAnnotation: bool)
    requires BibleTextOf(bibleWord, korRows, engRows, removeAnnotation).Ok?
    requires BibleTextOf(bibleWord, korRows, engRows, removeAnnotation).value.Found?
    ensures var t := BibleTextOf(bibleWord, korRows, engRows, removeAnnotation).value.bibleText;
      && bibleWord == t.bookKor + " " + t.chapterVerse
      && ' ' !in t.bookKor && ' ' !in t.chapterVerse
      && t.bookEng == GetEngBook(t.bookKor)
      && VersesOf(t.chapterVerse).Ok?
      && t.textList == TextList(VersesOf(t.chapterVerse).value,
           RefinedTextOf(t.bookKor, korRows, removeAnnotation), RefinedTextOf(t.bookKor, engRows, removeAnnotation))
  {
    SplitWord(bibleWord);
  }

  // ---------------------------------------------- the two routes together

  /** The book names of the reader's table hold no space. */
  lemma BookNameUnspaced(korBook: string)
    requires IsValid(korBook)
    ensures ' ' !in korBook
  {
    BookNamesUnspaced();
  }

  /** A word made of two space-free halves reaches Gather with those halves. */
  lemma TwoPartWord(bookFullname: string, chapterVerse: string, korRows: seq<Row>, engRows: seq<Row>, removeAnnotation: bool)
    requires ' ' !in bookFullname && ' ' !in chapterVerse
    ensures BibleTextOf(bookFullname + " " + chapterVerse, korRows, engRows, removeAnnotation)
      == Gather(bookFullname, chapterVerse, korRows, engRows, removeAnnotation)
  {
    SplitAtOnlySeparator(bookFullname, chapterVerse, ' ');
    assert bookFullname + [' '] + chapterVerse == bookFullname + " " + chapterVerse;
  }

  /**
   * A line parse_message produced, sent back as bible_word, is accepted by
   * get_bible_text: it splits into the full name and the chapter:verse token,
   * the English name is found, and there is one entry per verse of the
   * non-empty list parse_message checked.
   */
  lemma LineIsAcceptedBack(span: string, korRows: seq<Row>, engRows: seq<Row>, removeAnnotation: bool)
    requires IsReferenceSpan(span) && Resolve(span).Ok? && Resolve(span).value.Some?
    ensures var (abbr, chapterVerse) := CandidateParts(span);
      var reply := BibleTextOf(Resolve(span).value.value, korRows, engRows, removeAnnotation);
      && GetBookFullname(abbr).Some?
      && reply.Ok? && reply.value.Found?
      && reply.value.bibleText.bookKor == GetBookFullname(abbr).value
      && reply.value.bibleText.chapterVerse == chapterVerse
      && reply.value.bibleText.bookEng.Some?
      && |reply.value.bibleText.textList| == |VersesOf(chapterVerse).value| > 0
  {
    var (abbr, chapterVerse) := CandidateParts(span);
    ResolveKeeps(span);
    CandidateChapterVerse(span);
    var fullname := GetBookFullname(abbr).value;
    FullnameIsReaderBook(abbr);
    BookNameUnspaced(fullname);
    ChapterVerseUnspaced(chapterVerse);
    TwoPartWord(fullname, chapterVerse, korRows, engRows, removeAnnotation);
    GatherAccepts(fullname, chapterVerse, korRows, engRows, removeAnnotation);
  }

  /** For a known book and a chapter:verse token that does not raise, Gather finds the English name and lists every verse. */
  lemma GatherAccepts(bookFullname: string, chapterVerse: string, korRows: seq<Row>, engRows: seq<Row>, removeAnnotation: bool)
    requires IsValid(bookFullname) && ExtractChapter(chapterVerse).Ok? && VersesOf(chapterVerse).Ok?
    ensures var reply := Gather(bookFullname, chapterVerse, korRows, engRows, removeAnnotation);
      && reply.Ok? && reply.value.Found?
      && reply.value.bibleText.bookKor == bookFullname
      && reply.value.bibleText.chapterVerse == chapterVerse
      && reply.value.bibleText.bookEng.Some?
      && |reply.value.bibleText.textList| == |VersesOf(chapterVerse).value|
  {
  }

  lemma ChapterVerseUnspaced(chapterVerse: string)
    requires IsChapterVerseToken(chapterVerse)
    ensures ' ' !in chapterVerse
  {
    var k := IndexOf(chapterVerse, ':');
    forall i | 0 <= i < |chapterVerse|
      ensures chapterVerse[i] != ' '
    {
      if i < k {
        assert chapterVerse[i] == chapterVerse[..k][i];
      }
    }
  }
}

/**
 * The reference parser of bible_parser/book_chapter_verse_extractor.py: the
 * abbreviation table, the grammar of a reference, and the resolution of a
 * chapter:verse token into a chapter number and a list of verses.
 */
module Extractor {
  import opened Wrappers
  import opened Strings

  /*
   * BOOK_ABBR_TO_FULLNAME, written as the union of its Old Testament entries
   * (the first 39 lines of the dict literal) and its New Testament entries (the
   * last 27). The union has exactly the dict's entries.
   */
  const OldTestamentAbbreviations: map<string, string> := map[
    "창" := "창세기",
    "출" := "출애굽기",
    "레" := "레위기",
    "민" := "민수기",
    "신" := "신명기",
    "수" := "여호수아",
    "삿" := "사사기",
    "룻" := "룻기",
    "삼상" := "사무엘상",
    "삼하" := "사무엘하",
    "왕상" := "열왕기상",
    "왕하" := "열왕기하",
    "대상" := "역대상",
    "대하" := "역대하",
    "스" := "에스라",
    "느" := "느헤미야",
    "에" := "에스더",
    "욥" := "욥기",
    "시" := "시편",
    "잠" := "잠언",
    "전" := "전도서",
    "아" := "아가",
    "사" := "이사야",
    "렘" := "예레미야",
    "애" := "예레미야애가",
    "겔" := "에스겔",
    "단" := "다니엘",
    "호" := "호세아",
    "욜" := "요엘",
    "암" := "아모스",
    "옵" := "오바댜",
    "욘" := "요나",
    "미" := "미가",
    "나" := "나훔",
    "합" := "하박국",
    "습" := "스바냐",
    "학" := "학개",
    "슥" := "스가랴",
    "말" := "말라기"
  ]

  const NewTestamentAbbreviations: map<string, string> := map[
    "마" := "마태복음",
    "막" := "마가복음",
    "눅" := "누가복음",
    "요" := "요한복음",
    "행" := "사도행전",
    "롬" := "로마서",
    "고전" := "고린도전서",
    "고후" := "고린도후서",
    "갈" := "갈라디아서",
    "엡" := "에베소서",
    "빌" := "빌립보서",
    "골" := "골로새서",
    "살전" := "데살로니가전서",
    "살후" := "데살로니가후서",
    "딤전" := "디모데전서",
    "딤후" := "디모데후서",
    "딛" := "디도서",
    "몬" := "빌레몬서",
    "히" := "히브리서",
    "약" := "야고보서",
    "벧전" := "베드로전서",
    "벧후" := "베드로후서",
    "요일" := "요한일서",
    "요이" := "요한이서",
    "요삼" := "요한삼서",
    "유" := "유다서",
    "계" := "요한계시록"
  ]

  const BookAbbrToFullname: map<string, string> := OldTestamentAbbreviations + NewTestamentAbbreviations

  // ---------------------------------------------------------------- grammar

  /** PATTERN_BOOK: one or two Hangul syllables. */
  predicate IsBookToken(s: string)
  {
    1 <= |s| <= 2 && forall i :: 0 <= i < |s| ==> IsHangulSyllable(s[i])
  }

  /** The character class of PATTERN_CHAPTER_VERSE: digits, '|', '-', '~' and ','. */
  predicate IsSpecChar(c: char)
  {
    IsDigit(c) || c == '|' || c == '-' || c == '~' || c == ','
  }

  /**
   * PATTERN_CHAPTER_VERSE: one to three digits, ':', then characters of the
   * class above, at least one, the last of them a digit.
   */
  predicate IsChapterVerseToken(s: string)
  {
    && ':' in s
    && var k := IndexOf(s, ':');
    && 1 <= k <= 3
    && AllDigits(s[..k])
    && k + 1 < |s|
    && (forall i :: k < i < |s| ==> IsSpecChar(s[i]))
    && IsDigit(s[|s| - 1])
  }

  /** A span the combined pattern PATTERN_BOOK + "[ ]?" + PATTERN_CHAPTER_VERSE matches. */
  ghost predicate IsReferenceSpan(s: string)
  {
    exists book, chapterVerse :: IsSpanOf(s, book, chapterVerse)
  }

  /** s is book, an optional space, and chapterVerse. */
  predicate IsSpanOf(s: string, book: string, chapterVerse: string)
  {
    && IsBookToken(book)
    && IsChapterVerseToken(chapterVerse)
    && (s == book + chapterVerse || s == book + " " + chapterVerse)
  }

  lemma AbbreviationKeysOld()
    ensures forall k :: k in OldTestamentAbbreviations ==> IsBookToken(k)
  {
    forall k | k in OldTestamentAbbreviations
      ensures IsBookToken(k)
    {
      if |k| == 1 {
        assert IsHangulSyllable(k[0]);
      } else {
        assert IsHangulSyllable(k[0]) && IsHangulSyllable(k[1]);
      }
    }
  }

  lemma AbbreviationKeysNew()
    ensures forall k :: k in NewTestamentAbbreviations ==> IsBookToken(k)
  {
    forall k | k in NewTestamentAbbreviations
      ensures IsBookToken(k)
    {
      if |k| == 1 {
        assert IsHangulSyllable(k[0]);
      } else {
        assert IsHangulSyllable(k[0]) && IsHangulSyllable(k[1]);
      }
    }
  }

  /** Every abbreviation in the table is a token PATTERN_BOOK can match. */
  lemma AbbreviationsAreBookTokens()
    ensures forall k :: k in BookAbbrToFullname ==> IsBookToken(k)
  {
    AbbreviationKeysOld();
    AbbreviationKeysNew();
  }

  // ------------------------------------------------- splitting a matched span

  /**
   * The book part and the chapter:verse part of a matched span, as the calls
   * extract_content(span, 'book') and extract_content(span, 'chapter_verse')
   * find them (before their '~' replacement): the leading Hangul syllables,
   * and what follows them after the optional space.
   */
  function SplitSpan(span: string): (string, string)
    requires IsReferenceSpan(span)
  {
    var n := if |span| > 1 && IsHangulSyllable(span[1]) then 2 else 1;
    var rest := span[n..];
    (span[..n], if |rest| > 0 && rest[0] == ' ' then rest[1..] else rest)
  }

  lemma ChapterVerseStartsWithDigit(cv: string)
    requires IsChapterVerseToken(cv)
    ensures |cv| > 0 && IsDigit(cv[0])
  {
    var k := IndexOf(cv, ':');
    assert cv[..k][0] == cv[0];
  }

  /** The grammar is unambiguous: a matched span splits in exactly one way. */
  lemma SplitSpanUnique(span: string, book: string, chapterVerse: string)
    requires IsSpanOf(span, book, chapterVerse)
    ensures IsReferenceSpan(span) && SplitSpan(span) == (book, chapterVerse)
  {
    ChapterVerseStartsWithDigit(chapterVerse);
    assert span[..|book|] == book;
    if |book| == 1 {
      assert span[1] == ' ' || span[1] == chapterVerse[0];
    }
    assert span[|book|..] == chapterVerse || span[|book|..] == " " + chapterVerse;
  }

  /** The parts SplitSpan finds are a book token and a chapter:verse token. */
  lemma SplitSpanMatches(span: string)
    requires IsReferenceSpan(span)
    ensures IsBookToken(SplitSpan(span).0) && IsChapterVerseToken(SplitSpan(span).1)
    ensures span == SplitSpan(span).0 + SplitSpan(span).1 || span == SplitSpan(span).0 + " " + SplitSpan(span).1
  {
    var book, chapterVerse :| IsSpanOf(span, book, chapterVerse);
    SplitSpanUnique(span, book, chapterVerse);
  }

  // ----------------------------------------------------- extract_content

  /**
   * extract_content: None when the pattern found nothing, otherwise the first
   * match with every '~' replaced by '-'. The matches findall returned are
   * the argument.
   */
  function ExtractContent(matches: seq<string>): (r: Option<string>)
    ensures r.None? <==> |matches| == 0
    ensures r.Some? ==> '~' !in r.value && |r.value| == |matches[0]|
    ensures r.Some? ==> forall i :: 0 <= i < |r.value| ==>
      r.value[i] == if matches[0][i] == '~' then '-' else matches[0][i]
  {
    if |matches| <= 0 then None
    else
      ReplaceCharPointwise(matches[0], '~', '-');
      ReplaceCharRemoves(matches[0], '~', '-');
      Some(ReplaceAll(matches[0], "~", "-"))
  }

  /** Replacing '~' by '-' keeps a chapter:verse token inside the grammar. */
  lemma DashedTokenStillMatches(cv: string)
    requires IsChapterVerseToken(cv)
    ensures IsChapterVerseToken(ExtractContent([cv]).value)
  {
    var r := ExtractContent([cv]).value;
    var k := IndexOf(cv, ':');
    assert r[..k] == cv[..k];
    assert r[k] == ':';
    assert ':' !in r[..k];
    IndexOfAfterPrefix(r[..k], ':', r[k + 1..]);
    assert r == r[..k] + [':'] + r[k + 1..];
  }

  // ----------------------------------------------------- get_book_fullname

  /** get_book_fullname: the full name of an abbreviation, or None. */
  function GetBookFullname(abbr: string): (r: Option<string>)
    ensures r.Some? <==> abbr in BookAbbrToFullname
    ensures r.Some? ==> IsBookToken(abbr) && r.value == BookAbbrToFullname[abbr]
  {
    AbbreviationsAreBookTokens();
    if abbr in BookAbbrToFullname then Some(BookAbbrToFullname[abbr]) else None
  }

  // ----------------------------------------------------- extract_chapter

  /** extract_chapter: -1 without ':', else int() of the text before the first ':'. */
  function ExtractChapter(content: string): (r: Result<int>)
    ensures ':' !in content ==> r == Ok(-1)
    ensures ':' in content ==> (r.Ok? <==> IsIntLiteral(content[..IndexOf(content, ':')]))
    ensures ':' in content && r.Ok? ==> Some(r.value) == PyInt(content[..IndexOf(content, ':')])
  {
    if ':' !in content then Ok(-1)
    else
      match PyInt(content[..IndexOf(content, ':')])
      case None => ValueError
      case Some(chapter) => Ok(chapter)
  }

  /** The chapter written in front of the first ':' is the chapter read back. */
  lemma ExtractChapterRoundTrip(chapter: nat, rest: string)
    ensures ExtractChapter(NatToString(chapter) + ":" + rest) == Ok(chapter)
  {
    assert ':' !in NatToString(chapter);
    IndexOfAfterPrefix(NatToString(chapter), ':', rest);
    var content := NatToString(chapter) + ":" + rest;
    assert content[..|NatToString(chapter)|] == NatToString(chapter);
    DecimalOfNatToString(chapter);
  }

  /** A token the grammar matches always has a chapter, between 0 and 999. */
  lemma MatchedTokenHasChapter(cv: string)
    requires IsChapterVerseToken(cv)
    ensures ExtractChapter(cv).Ok? && 0 <= ExtractChapter(cv).value <= 999
  {
    var k := IndexOf(cv, ':');
    DecimalBelow(cv[..k]);
  }

  // ----------------------------------------------------- extract_verse_range

  /** Python's range(start, stop) as a list. */
  function Range(start: int, stop: int): seq<int>
  {
    if start < stop then seq(stop - start, i => start + i) else []
  }

  /**
   * extract_verse_range: None when from >= to, otherwise range(from, to + 1);
   * ValueError when either bound is not an integer literal.
   */
  function ExtractVerseRange(strFrom: string, strTo: string): (r: Result<Option<seq<int>>>)
    ensures r.Ok? <==> IsIntLiteral(strFrom) && IsIntLiteral(strTo)
    ensures r.Ok? ==> (r.value.Some? <==> PyInt(strFrom).value < PyInt(strTo).value)
  {
    match (PyInt(strFrom), PyInt(strTo))
    case (Some(intFrom), Some(intTo)) =>
      if intFrom >= intTo then Ok(None) else Ok(Some(Range(intFrom, intTo + 1)))
    case _ => ValueError
  }

  /** The list of a range holds every verse from the first to the last, each once, in order. */
  lemma ExtractVerseRangeContents(strFrom: string, strTo: string)
    requires ExtractVerseRange(strFrom, strTo).Ok? && ExtractVerseRange(strFrom, strTo).value.Some?
    ensures var (a, b, verses) := (PyInt(strFrom).value, PyInt(strTo).value, ExtractVerseRange(strFrom, strTo).value.value);
      |verses| == b - a + 1 && forall i :: 0 <= i < |verses| ==> verses[i] == a + i
  {
  }

  // ----------------------------------------------------- extract_verses

  /** The variables of the loop in extract_verses: prv_num, num, op and result_list. */
  datatype ScanState = ScanState(prvNum: string, num: string, op: string, verses: seq<int>)

  const Initial := ScanState("", "", "", [])

  /** `if curr_list and len(curr_list) > 0: result_list.extend(curr_list)` */
  function ExtendWith(verses: seq<int>, currList: Option<seq<int>>): seq<int>
  {
    if currList.Some? && |currList.value| > 0 then verses + currList.value else verses
  }

  /** One iteration of the loop, on character ch. */
  function Step(s: ScanState, ch: char): Result<ScanState>
  {
    if IsDigit(ch) then Ok(s.(num := s.num + [ch]))
    else if |s.prvNum| <= 0 then
      if ch == ',' then
        match PyInt(s.num)
        case None => ValueError
        case Some(v) => Ok(ScanState("", "", "", s.verses + [v]))
      else Ok(ScanState(s.num, "", [ch], s.verses))
    else
      match ExtractVerseRange(s.prvNum, s.num)
      case ValueError => ValueError
      case Ok(currList) => Ok(ScanState("", "", "", ExtendWith(s.verses, currList)))
  }

  /** The loop run over the characters of spec; the first ValueError ends it. */
  function Scan(spec: string): Result<ScanState>
  {
    if spec == [] then Ok(Initial)
    else
      match Scan(spec[..|spec| - 1])
      case ValueError => ValueError
      case Ok(s) => Step(s, spec[|spec| - 1])
  }

  /** The statements after the loop: the pending number or range is recorded. */
  function Finish(s: ScanState): Result<seq<int>>
  {
    if |s.op| <= 0 then
      match PyInt(s.num)
      case None => ValueError
      case Some(v) => Ok(s.verses + [v])
    else
      match ExtractVerseRange(s.prvNum, s.num)
      case ValueError => ValueError
      case Ok(currList) => Ok(ExtendWith(s.verses, currList))
  }

  /** What extract_verses returns for content, or ValueError where it raises. */
  function VersesOf(content: string): Result<seq<int>>
  {
    if ':' !in content then Ok([])
    else
      match Scan(content[IndexOf(content, ':') + 1..])
      case ValueError => ValueError
      case Ok(s) => Finish(s)
  }

  lemma ScanAppend(p: string, c: char)
    ensures Scan(p + [c]) == match Scan(p) case ValueError => ValueError case Ok(s) => Step(s, c)
  {
    assert (p + [c])[..|p|] == p;
  }

  /** Once the loop has raised, nothing after it matters. */
  lemma {:induction false} ScanErrorSticks(p: string, q: string)
    requires Scan(p) == ValueError
    ensures Scan(p + q) == ValueError
  {
    if q == [] {
      assert p + q == p;
    } else {
      ScanErrorSticks(p, q[..|q| - 1]);
      assert (p + q)[..|p + q| - 1] == p + q[..|q| - 1];
    }
  }

  /** Digits only ever append to num. */
  lemma {:induction false} ScanDigits(p: string, d: string)
    requires AllDigits(d) && Scan(p).Ok?
    ensures Scan(p + d) == Ok(Scan(p).value.(num := Scan(p).value.num + d))
  {
    if d == [] {
      assert p + d == p;
      assert Scan(p).value.num + d == Scan(p).value.num;
    } else {
      var d' := d[..|d| - 1];
      ScanDigits(p, d');
      assert (p + d)[..|p + d| - 1] == p + d';
      assert Scan(p).value.num + d' + [d[|d| - 1]] == Scan(p).value.num + d;
    }
  }

  method ExtractVerses(content: string) returns (r: Result<seq<int>>)
    ensures r == VersesOf(content)
    ensures ':' !in content ==> r == Ok([])
  {
    if ':' !in content {
      return Ok([]);
    }
    var pos := IndexOf(content, ':');
    var spec := content[pos + 1..];
    var prvNum, num, op, resultList := "", "", "", [];
    for i := 0 to |spec|
      invariant Scan(spec[..i]) == Ok(ScanState(prvNum, num, op, resultList))
    {
      ScanAppend(spec[..i], spec[i]);
      assert spec[..i] + [spec[i]] == spec[..i + 1];
      var ch := spec[i];
      if IsDigit(ch) {
        num := num + [ch];
      } else if |prvNum| <= 0 {
        if ch == ',' {
          var v := PyInt(num);
          if v.None? {
            ScanErrorSticks(spec[..i + 1], spec[i + 1..]);
            assert spec[..i + 1] + spec[i + 1..] == spec;
            return ValueError;
          }
          resultList := resultList + [v.value];
          prvNum, num, op := "", "", "";
        } else {
          prvNum := num;
          num := "";
          op := [ch];
        }
      } else {
        var currList := ExtractVerseRange(prvNum, num);
        if currList.ValueError? {
          ScanErrorSticks(spec[..i + 1], spec[i + 1..]);
          assert spec[..i + 1] + spec[i + 1..] == spec;
          return ValueError;
        }
        if currList.value.Some? && |currList.value.value| > 0 {
          resultList := resultList + currList.value.value;
        }
        prvNum, num, op := "", "", "";
      }
    }
    assert spec[..|spec|] == spec;
    assert VersesOf(content) == Finish(ScanState(prvNum, num, op, resultList));
    if |op| <= 0 {
      var v := PyInt(num);
      if v.None? {
        return ValueError;
      }
      resultList := resultList + [v.value];
    } else {
      var currList := ExtractVerseRange(prvNum, num);
      if currList.ValueError? {
        return ValueError;
      }
      if currList.value.Some? && |currList.value.value| > 0 {
        resultList := resultList + currList.value.value;
      }
    }
    r := Ok(resultList);
  }

  // ------------------------------------ what the scanner does on well-formed specs

  /** A run of digits as the scanner collects it in num; leading zeros are allowed. */
  type Numeral = s: string | |s| > 0 && AllDigits(s) witness "0"

  /** One comma-separated piece of a verse spec: a verse, or a range first<op>last. */
  datatype Segment = Single(verse: Numeral) | Span(first: Numeral, op: char, last: Numeral)

  /** Any character other than a digit or ',' opens a range. */
  predicate IsRangeOperator(c: char) { !IsDigit(c) && c != ',' }

  predicate WellFormedSegment(g: Segment) { g.Span? ==> IsRangeOperator(g.op) }

  predicate WellFormedSegments(segs: seq<Segment>)
  {
    |segs| > 0 && forall i :: 0 <= i < |segs| ==> WellFormedSegment(segs[i])
  }

  function SegmentText(g: Segment): string
  {
    match g
    case Single(v) => v
    case Span(a, op, b) => a + [op] + b
  }

  /** The segments written out, separated by ','. */
  function SpecText(segs: seq<Segment>): string
    requires |segs| > 0
  {
    if |segs| == 1 then SegmentText(segs[0])
    else SpecText(segs[..|segs| - 1]) + "," + SegmentText(segs[|segs| - 1])
  }

  /** The verses a segment stands for: first..last inclusive when first < last, else none. */
  function SegmentVerses(g: Segment): seq<int>
  {
    match g
    case Single(v) => [Decimal(v)]
    case Span(a, _, b) => if Decimal(a) < Decimal(b) then Range(Decimal(a), Decimal(b) + 1) else []
  }

  /** The verses of all segments, in the order written. */
  function Expand(segs: seq<Segment>): seq<int>
  {
    if segs == [] then [] else Expand(segs[..|segs| - 1]) + SegmentVerses(segs[|segs| - 1])
  }

  /** The scanner's state after the digits of segment g, before what closes it. */
  function Pending(g: Segment, done: seq<int>): ScanState
  {
    match g
    case Single(v) => ScanState("", v, "", done)
    case Span(a, op, b) => ScanState(a, b, [op], done)
  }

  /** A ',' after a bare number records that number. */
  lemma ScanComma(p: string, v: Numeral, done: seq<int>)
    requires Scan(p) == Ok(ScanState("", v, "", done))
    ensures Scan(p + ",") == Ok(ScanState("", "", "", done + [Decimal(v)]))
  {
    assert (p + ",")[..|p|] == p;
  }

  /** A range operator after a bare number opens a range. */
  lemma ScanOpen(p: string, num: string, done: seq<int>, op: char)
    requires IsRangeOperator(op) && Scan(p) == Ok(ScanState("", num, "", done))
    ensures Scan(p + [op]) == Ok(ScanState(num, "", [op], done))
  {
    assert (p + [op])[..|p|] == p;
  }

  lemma SpanVerses(a: Numeral, op: char, b: Numeral, done: seq<int>)
    ensures ExtractVerseRange(a, b).Ok?
    ensures ExtendWith(done, ExtractVerseRange(a, b).value) == done + SegmentVerses(Span(a, op, b))
  {
    assert done + [] == done;
  }

  /** While a range is open, any non-digit closes it, whatever character it is. */
  lemma ScanCloseRange(p: string, a: Numeral, op: char, b: Numeral, done: seq<int>, ch: char)
    requires !IsDigit(ch) && Scan(p) == Ok(Pending(Span(a, op, b), done))
    ensures Scan(p + [ch]) == Ok(ScanState("", "", "", done + SegmentVerses(Span(a, op, b))))
  {
    assert (p + [ch])[..|p|] == p;
    SpanVerses(a, op, b, done);
  }

  lemma ScanSpanText(p: string, a: Numeral, op: char, b: Numeral, done: seq<int>)
    requires IsRangeOperator(op) && Scan(p) == Ok(ScanState("", "", "", done))
    ensures Scan(p + a + [op] + b) == Ok(Pending(Span(a, op, b), done))
  {
    ScanDigits(p, a);
    assert "" + a == a;
    var q := p + a;
    assert Scan(q) == Ok(ScanState("", a, "", done));
    ScanOpen(q, a, done, op);
    ScanDigits(q + [op], b);
    assert "" + b == b;
  }

  lemma SpanTextSplits(p: string, a: Numeral, op: char, b: Numeral)
    ensures p + SegmentText(Span(a, op, b)) == p + a + [op] + b
  {
  }

  lemma ScanSingleText(p: string, v: Numeral, done: seq<int>)
    requires Scan(p) == Ok(ScanState("", "", "", done))
    ensures Scan(p + SegmentText(Single(v))) == Ok(Pending(Single(v), done))
  {
    ScanDigits(p, v);
    assert "" + v == v;
  }

  /** Reading the text of a segment from a fresh state leaves it pending. */
  lemma ScanSegment(p: string, g: Segment, done: seq<int>)
    requires WellFormedSegment(g) && Scan(p) == Ok(ScanState("", "", "", done))
    ensures Scan(p + SegmentText(g)) == Ok(Pending(g, done))
  {
    if g.Single? {
      ScanSingleText(p, g.verse, done);
    } else {
      ScanSpanText(p, g.first, g.op, g.last, done);
      SpanTextSplits(p, g.first, g.op, g.last);
    }
  }

  /** The ',' after a pending segment records the segment's verses. */
  lemma ScanCloseSegment(p: string, g: Segment, done: seq<int>)
    requires Scan(p) == Ok(Pending(g, done))
    ensures Scan(p + ",") == Ok(ScanState("", "", "", done + SegmentVerses(g)))
  {
    match g
    case Single(v) => ScanComma(p, v, done);
    case Span(a, op, b) => ScanCloseRange(p, a, op, b, done, ',');
  }

  /** The end of the spec records the pending segment's verses. */
  lemma FinishSegment(g: Segment, done: seq<int>)
    ensures Finish(Pending(g, done)) == Ok(done + SegmentVerses(g))
  {
    match g
    case Single(v) =>
    case Span(a, op, b) => SpanVerses(a, op, b, done);
  }

  lemma {:induction false} ScanSpecText(segs: seq<Segment>)
    requires WellFormedSegments(segs)
    ensures Scan(SpecText(segs)) == Ok(Pending(segs[|segs| - 1], Expand(segs[..|segs| - 1])))
  {
    var n := |segs|;
    if n == 1 {
      ScanSegment("", segs[0], []);
      assert "" + SegmentText(segs[0]) == SegmentText(segs[0]);
      assert segs[..0] == [];
    } else {
      var init := segs[..n - 1];
      assert WellFormedSegments(init);
      ScanSpecText(init);
      ScanCloseSegment(SpecText(init), init[n - 2], Expand(init[..n - 2]));
      ScanSegment(SpecText(init) + ",", segs[n - 1], Expand(init));
    }
  }

  lemma VersesAfterHead(head: string, spec: string)
    requires ':' !in head
    ensures VersesOf(head + ":" + spec) ==
      match Scan(spec) case ValueError => ValueError case Ok(s) => Finish(s)
  {
    IndexOfAfterPrefix(head, ':', spec);
    var content := head + ":" + spec;
    assert content == head + [':'] + spec;
    assert content[|head| + 1..] == spec;
  }

  /**
   * The main property of extract_verses: on a spec of comma-separated verses
   * and ranges, the result is each segment's verses in the order written; an
   * inverted or empty range contributes nothing and the scan goes on. The
   * numbers may carry leading zeros: "01" is verse 1.
   */
  lemma VersesOfWellFormedSpec(head: string, segs: seq<Segment>)
    requires ':' !in head && WellFormedSegments(segs)
    ensures VersesOf(head + ":" + SpecText(segs)) == Ok(Expand(segs))
  {
    VersesAfterHead(head, SpecText(segs));
    ScanSpecText(segs);
    FinishSegment(segs[|segs| - 1], Expand(segs[..|segs| - 1]));
  }

  function Singles(verses: seq<nat>): (segs: seq<Segment>)
    ensures |segs| == |verses|
  {
    seq(|verses|, i requires 0 <= i < |verses| => Single(NatToString(verses[i])))
  }

  function Numerals(verses: seq<nat>): (numerals: seq<string>)
    ensures |numerals| == |verses|
  {
    seq(|verses|, i requires 0 <= i < |verses| => NatToString(verses[i]))
  }

  lemma SinglesSpec(verses: seq<nat>)
    requires |verses| > 0
    ensures WellFormedSegments(Singles(verses))
    ensures SpecText(Singles(verses)) == Join(Numerals(verses), ',')
    ensures Expand(Singles(verses)) == verses
  {
    SinglesText(verses);
    SinglesExpand(verses);
  }

  lemma {:induction false} SinglesText(verses: seq<nat>)
    requires |verses| > 0
    ensures SpecText(Singles(verses)) == Join(Numerals(verses), ',')
  {
    var n := |verses|;
    if n > 1 {
      var init := verses[..n - 1];
      SinglesText(init);
      assert Singles(verses)[..n - 1] == Singles(init);
      assert Numerals(verses)[..n - 1] == Numerals(init);
    }
  }

  lemma {:induction false} SinglesExpand(verses: seq<nat>)
    ensures Expand(Singles(verses)) == verses
  {
    var n := |verses|;
    if n > 0 {
      var init := verses[..n - 1];
      SinglesExpand(init);
      SingleOfNat(verses[n - 1]);
      assert Singles(verses)[..n - 1] == Singles(init);
      assert verses == init + [verses[n - 1]];
    }
  }

  lemma SingleOfNat(v: nat)
    ensures SegmentVerses(Single(NatToString(v))) == [v]
  {
    DecimalOfNatToString(v);
  }

  /** Numbers joined by ',' come back as exactly those numbers: order and repeats are kept. */
  lemma CommaSeparatedVerses(head: string, verses: seq<nat>)
    requires ':' !in head && |verses| > 0
    ensures VersesOf(head + ":" + Join(Numerals(verses), ',')) == Ok(verses)
  {
    SinglesSpec(verses);
    VersesOfWellFormedSpec(head, Singles(verses));
  }

  /** A single range a<op>b: a, a+1, ..., b when a < b, and nothing when a >= b. */
  lemma RangeVerses(head: string, a: Numeral, op: char, b: Numeral)
    requires ':' !in head && IsRangeOperator(op)
    ensures VersesOf(head + ":" + (a + [op] + b)) ==
      Ok(if Decimal(a) < Decimal(b) then Range(Decimal(a), Decimal(b) + 1) else [])
  {
    ScanSpanFromStart(a, op, b);
    VersesOfPending(head, a + [op] + b, Span(a, op, b));
    SpanSegmentVerses(a, op, b);
  }

  lemma SpanSegmentVerses(a: Numeral, op: char, b: Numeral)
    ensures SegmentVerses(Span(a, op, b)) ==
      if Decimal(a) < Decimal(b) then Range(Decimal(a), Decimal(b) + 1) else []
  {
  }

  /** A spec the scanner reads up to one pending segment yields that segment's verses. */
  lemma VersesOfPending(head: string, spec: string, g: Segment)
    requires ':' !in head && Scan(spec) == Ok(Pending(g, []))
    ensures VersesOf(head + ":" + spec) == Ok(SegmentVerses(g))
  {
    VersesAfterHead(head, spec);
    FinishSegment(g, []);
    EmptyPrefix(SegmentVerses(g));
  }

  lemma ScanSpanFromStart(a: Numeral, op: char, b: Numeral)
    requires IsRangeOperator(op)
    ensures Scan(a + [op] + b) == Ok(Pending(Span(a, op, b), []))
  {
    ScanSpanText("", a, op, b, []);
    EmptyPrefix(a);
  }

  lemma EmptyPrefix<T>(s: seq<T>)
    ensures [] + s == s
  {
  }

  /** A whole range a<op>b and the non-digit after it. */
  lemma ScanClosedRange(p: string, a: Numeral, op: char, b: Numeral, op': char, done: seq<int>)
    requires IsRangeOperator(op) && !IsDigit(op') && Scan(p) == Ok(ScanState("", "", "", done))
    ensures Scan(p + SegmentText(Span(a, op, b)) + [op']) ==
      Ok(ScanState("", "", "", done + SegmentVerses(Span(a, op, b))))
  {
    ScanSpanText(p, a, op, b, done);
    SpanTextSplits(p, a, op, b);
    ScanCloseRange(p + SegmentText(Span(a, op, b)), a, op, b, done, op');
  }

  lemma ScanRangeThenVerse(a: Numeral, op: char, b: Numeral, op': char, c: Numeral)
    requires IsRangeOperator(op) && !IsDigit(op')
    ensures Scan(SegmentText(Span(a, op, b)) + [op'] + SegmentText(Single(c))) ==
      Ok(Pending(Single(c), SegmentVerses(Span(a, op, b))))
  {
    var q := SegmentText(Span(a, op, b)) + [op'];
    ScanClosedRange("", a, op, b, op', []);
    assert "" + SegmentText(Span(a, op, b)) + [op'] == q;
    assert [] + SegmentVerses(Span(a, op, b)) == SegmentVerses(Span(a, op, b));
    ScanSingleText(q, c, SegmentVerses(Span(a, op, b)));
  }

  /**
   * In a<op>b<op'>c the second operator closes the range and is itself
   * dropped, so c is read as a verse of its own.
   */
  lemma SecondOperatorClosesRange(head: string, a: Numeral, op: char, b: Numeral, op': char, c: Numeral)
    requires ':' !in head && IsRangeOperator(op) && !IsDigit(op')
    ensures VersesOf(head + ":" + (a + [op] + b + [op'] + c)) ==
      Ok(SegmentVerses(Span(a, op, b)) + [Decimal(c)])
  {
    var spec := a + [op] + b + [op'] + c;
    ScanRangeThenVerse(a, op, b, op', c);
    assert spec == SegmentText(Span(a, op, b)) + [op'] + SegmentText(Single(c));
    FinishSegment(Single(c), SegmentVerses(Span(a, op, b)));
    VersesAfterHead(head, spec);
  }

  /** An empty spec after ':' raises: int("") fails. */
  lemma EmptySpecRaises(head: string)
    requires ':' !in head
    ensures VersesOf(head + ":") == ValueError
  {
    VersesAfterHead(head, "");
    assert head + ":" + "" == head + ":";
  }

  /** A spec starting with ',' raises. */
  lemma LeadingCommaRaises(head: string, rest: string)
    requires ':' !in head
    ensures VersesOf(head + ":" + ("," + rest)) == ValueError
  {
    ScanCommaWithoutNumber("", []);
    assert "" + "," == ",";
    ScanErrorSticks(",", rest);
    VersesAfterHead(head, "," + rest);
  }

  /** A ',' where no number has been read raises: int("") fails. */
  lemma ScanCommaWithoutNumber(p: string, done: seq<int>)
    requires Scan(p) == Ok(ScanState("", "", "", done))
    ensures Scan(p + ",") == ValueError
  {
    assert (p + ",")[..|p|] == p;
  }

  /** Two commas in a row raise, whatever came before: the first ',' leaves num empty. */
  lemma ScanDoubleComma(p: string)
    ensures Scan(p + ",,") == ValueError
  {
    ScanAppend(p, ',');
    ScanAppend(p + ",", ',');
    assert p + "," + [','] == p + ",,";
    assert !IsIntLiteral("");
  }

  /** Two commas in a row raise, whatever comes before or after them. */
  lemma DoubleCommaRaises(head: string, p: string, rest: string)
    requires ':' !in head
    ensures VersesOf(head + ":" + (p + ",," + rest)) == ValueError
  {
    ScanDoubleComma(p);
    ScanErrorSticks(p + ",,", rest);
    VersesAfterHead(head, p + ",," + rest);
  }

  /** A ',' right after a range operator raises, whatever came before: int('') fails. */
  lemma ScanOperatorThenComma(p: string, op: char)
    requires IsRangeOperator(op)
    ensures Scan(p + [op] + ",") == ValueError
  {
    ScanAppend(p, op);
    ScanAppend(p + [op], ',');
    assert !IsIntLiteral("");
  }

  /** An operator followed directly by ',' raises, wherever it stands: the range has no end. */
  lemma OperatorThenCommaRaises(head: string, p: string, op: char, rest: string)
    requires ':' !in head && IsRangeOperator(op)
    ensures VersesOf(head + ":" + (p + [op] + "," + rest)) == ValueError
  {
    ScanOperatorThenComma(p, op);
    ScanErrorSticks(p + [op] + ",", rest);
    VersesAfterHead(head, p + [op] + "," + rest);
  }

  /** After a trailing range operator the statements after the loop raise: int('') fails. */
  lemma ScanTrailingOperator(p: string, op: char)
    requires IsRangeOperator(op)
    ensures Scan(p + [op]).Ok? ==> Finish(Scan(p + [op]).value) == ValueError
  {
    ScanAppend(p, op);
    assert !IsIntLiteral("");
  }

  /** A spec ending in an operator raises, whatever comes before it. */
  lemma TrailingOperatorRaises(head: string, p: string, op: char)
    requires ':' !in head && IsRangeOperator(op)
    ensures VersesOf(head + ":" + (p + [op])) == ValueError
  {
    ScanTrailingOperator(p, op);
    VersesAfterHead(head, p + [op]);
  }

  /** A spec that opens with an operator and ends in a number raises: the range has no start. */
  lemma LeadingOperatorRaises(head: string, op: char, d: Numeral)
    requires ':' !in head && IsRangeOperator(op)
    ensures VersesOf(head + ":" + ([op] + d)) == ValueError
  {
    ScanAppend([], op);
    assert [] + [op] == [op];
    ScanDigits([op], d);
    assert !IsIntLiteral("");
    VersesAfterHead(head, [op] + d);
  }

  /** The loop depends on what it has read only through its variables. */
  lemma {:induction false} ScanSameState(p: string, q: string, rest: string)
    requires Scan(p) == Scan(q)
    ensures Scan(p + rest) == Scan(q + rest)
    decreases |rest|
  {
    if rest == [] {
      EmptySuffix(p);
      EmptySuffix(q);
    } else {
      var init := rest[..|rest| - 1];
      var ch := rest[|rest| - 1];
      ScanSameState(p, q, init);
      ScanSameStateStep(p + init, q + init, ch);
      SnocSuffix(p, rest);
      SnocSuffix(q, rest);
    }
  }

  lemma EmptySuffix<T>(p: seq<T>)
    ensures p + [] == p
  {
  }

  lemma SnocSuffix<T>(p: seq<T>, rest: seq<T>)
    requires rest != []
    ensures p + rest == (p + rest[..|rest| - 1]) + [rest[|rest| - 1]]
  {
    assert rest == rest[..|rest| - 1] + [rest[|rest| - 1]];
  }

  lemma ScanSameStateStep(p: string, q: string, ch: char)
    requires Scan(p) == Scan(q)
    ensures Scan(p + [ch]) == Scan(q + [ch])
  {
    ScanAppend(p, ch);
    ScanAppend(q, ch);
  }

  /**
   * An operator with no number before it is dropped without a word once a
   * number and then any non-digit follow: a ',' finds no range open, records
   * the number and resets op; a second operator opens the range afresh.
   */
  lemma LeadingOperatorDropped(head: string, op: char, d: Numeral, ch: char, rest: string)
    requires ':' !in head && IsRangeOperator(op) && !IsDigit(ch)
    ensures VersesOf(head + ":" + ([op] + d + [ch] + rest)) == VersesOf(head + ":" + (d + [ch] + rest))
  {
    LeadingOperatorStep(op, d, ch);
    ScanSameState([op] + d + [ch], d + [ch], rest);
    VersesAfterHead(head, [op] + d + [ch] + rest);
    VersesAfterHead(head, d + [ch] + rest);
  }

  lemma LeadingOperatorStep(op: char, d: Numeral, ch: char)
    requires IsRangeOperator(op) && !IsDigit(ch)
    ensures Scan([op] + d + [ch]) == Scan(d + [ch])
  {
    ScanOperatorThenDigits(op, d);
    ScanDigitsFromStart(d);
    StepIgnoresOp(ScanState("", d, "", []), [op], ch);
    ScanAppend([op] + d, ch);
    ScanAppend(d, ch);
  }

  lemma ScanOperatorThenDigits(op: char, d: Numeral)
    requires IsRangeOperator(op)
    ensures Scan([op] + d) == Ok(ScanState("", d, [op], []))
  {
    ScanAppend([], op);
    assert [] + [op] == [op];
    ScanDigits([op], d);
    assert "" + d == d;
  }

  lemma ScanDigitsFromStart(d: Numeral)
    ensures Scan(d) == Ok(ScanState("", d, "", []))
  {
    ScanDigits([], d);
    assert [] + d == d;
  }

  /** With no range open, the loop does not look at op. */
  lemma StepIgnoresOp(s: ScanState, op: string, ch: char)
    requires s.prvNum == "" && !IsDigit(ch)
    ensures Step(s.(op := op), ch) == Step(s, ch)
  {
  }

  lemma DemonstrationNumerals()
    ensures Decimal("10") == 10 && Decimal("14") == 14 && Decimal("15") == 15
  {
    assert "1"[..0] == "" && Decimal("1") == 1;
    assert "10"[..1] == "1" && "14"[..1] == "1" && "15"[..1] == "1";
  }

  lemma DemonstrationSegments()
    ensures WellFormedSegments([Single("10"), Span("14", '-', "15")])
    ensures SpecText([Single("10"), Span("14", '-', "15")]) == "10,14-15"
    ensures Expand([Single("10"), Span("14", '-', "15")]) == [10, 14, 15]
  {
    var segs := [Single("10"), Span("14", '-', "15")];
    DemonstrationNumerals();
    assert segs[..1] == [Single("10")] && [Single("10")][..0] == [];
    assert Range(14, 16) == [14, 15];
  }

  /** The second reference of the module's own demonstration text: 20:10,14-15. */
  lemma DemonstrationSpec()
    ensures ExtractChapter("20:10,14-15") == Ok(20)
    ensures VersesOf("20:10,14-15") == Ok([10, 14, 15])
  {
    DemonstrationChapter();
    DemonstrationVerses();
  }

  lemma DemonstrationChapter()
    ensures ExtractChapter("20:10,14-15") == Ok(20)
  {
    assert NatToString(20) == "20";
    ExtractChapterRoundTrip(20, "10,14-15");
    assert "20" + ":" + "10,14-15" == "20:10,14-15";
  }

  lemma DemonstrationVerses()
    ensures VersesOf("20:10,14-15") == Ok([10, 14, 15])
  {
    var segs := [Single("10"), Span("14", '-', "15")];
    DemonstrationSegments();
    assert "20" + ":" + SpecText(segs) == "20:10,14-15";
    VersesOfWellFormedSpec("20", segs);
  }

  lemma LeadingZerosSegments()
    ensures WellFormedSegments([Single("01"), Single("02")])
    ensures SpecText([Single("01"), Single("02")]) == "01,02"
    ensures Expand([Single("01"), Single("02")]) == [1, 2]
  {
    var segs := [Single("01"), Single("02")];
    assert "0"[..0] == "" && Decimal("0") == 0;
    assert "01"[..1] == "0" && "02"[..1] == "0";
    assert Decimal("01") == 1 && Decimal("02") == 2;
    assert segs[..1] == [Single("01")] && [Single("01")][..0] == [];
  }

  /** Leading zeros are read as int() reads them: 1:01,02 gives verses 1 and 2. */
  lemma LeadingZerosVerses()
    ensures VersesOf("1:01,02") == Ok([1, 2])
  {
    var segs := [Single("01"), Single("02")];
    LeadingZerosSegments();
    assert "1" + ":" + SpecText(segs) == "1:01,02";
    VersesOfWellFormedSpec("1", segs);
  }
}

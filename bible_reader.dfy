/**
 * bible_parser/bible_reader.py: the Korean-to-English book table, the merge of
 * the database rows of one verse, and the removal of parenthesised
 * annotations and Latin letters from a verse text.
 */
module BibleReader {
  import opened Wrappers
  import opened Strings

  /*
   * KOR_BOOK_TO_ENG, written as the union of its Old Testament entries (the
   * first 39 lines of the dict literal) and its New Testament entries (the
   * last 27). Each testament is in turn the union of two runs of consecutive
   * lines, which keeps each display small enough to reason about.
   */
  const OldTestamentBooks: map<string, string> := LawAndHistoryBooks + PoetryAndProphetsBooks

  /** Genesis to Esther. */
  const LawAndHistoryBooks: map<string, string> := map[
    "창세기" := "Genesis",
    "출애굽기" := "Exodus",
    "레위기" := "Leviticus",
    "민수기" := "Numbers",
    "신명기" := "Deuteronomy",
    "여호수아" := "Joshua",
    "사사기" := "Judges",
    "룻기" := "Ruth",
    "사무엘상" := "FirstSamuel",
    "사무엘하" := "SecondSamuel",
    "열왕기상" := "FirstKings",
    "열왕기하" := "SecondKings",
    "역대상" := "FirstChronicles",
    "역대하" := "SecondChronicles",
    "에스라" := "Ezra",
    "느헤미야" := "Nehemiah",
    "에스더" := "Esther"
  ]

  /** Job to Malachi. */
  const PoetryAndProphetsBooks: map<string, string> := map[
    "욥기" := "Job",
    "시편" := "Psalms",
    "잠언" := "Proverbs",
    "전도서" := "Ecclesiastes",
    "아가" := "SongOfSongs",
    "이사야" := "Isaiah",
    "예레미야" := "Jeremiah",
    "예레미야애가" := "Lamentations",
    "에스겔" := "Ezekiel",
    "다니엘" := "Daniel",
    "호세아" := "Hosea",
    "요엘" := "Joel",
    "아모스" := "Amos",
    "오바댜" := "Obadiah",
    "요나" := "Jonah",
    "미가" := "Micah",
    "나훔" := "Nahum",
    "하박국" := "Habakkuk",
    "스바냐" := "Zephaniah",
    "학개" := "Haggai",
    "스가랴" := "Zechariah",
    "말라기" := "Malachi"
  ]

  const NewTestamentBooks: map<string, string> := GospelsAndActsBooks + LettersBooks

  /** Matthew to Acts. */
  const GospelsAndActsBooks: map<string, string> := map[
    "마태복음" := "Matthew",
    "마가복음" := "Mark",
    "누가복음" := "Luke",
    "요한복음" := "John",
    "사도행전" := "Acts"
  ]

  /** Romans to Revelation. */
  const LettersBooks: map<string, string> := map[
    "로마서" := "Romans",
    "고린도전서" := "FirstCorinthians",
    "고린도후서" := "SecondCorinthians",
    "갈라디아서" := "Galatians",
    "에베소서" := "Ephesians",
    "빌립보서" := "Philippians",
    "골로새서" := "Colossians",
    "데살로니가전서" := "FirstThessalonians",
    "데살로니가후서" := "SecondThessalonians",
    "디모데전서" := "FirstTimothy",
    "디모데후서" := "SecondTimothy",
    "디도서" := "Titus",
    "빌레몬서" := "Philemon",
    "히브리서" := "Hebrews",
    "야고보서" := "James",
    "베드로전서" := "FirstPeter",
    "베드로후서" := "SecondPeter",
    "요한일서" := "FirstJohn",
    "요한이서" := "SecondJohn",
    "요한삼서" := "ThirdJohn",
    "유다서" := "Jude",
    "요한계시록" := "Revelation"
  ]
  const KorBookToEng: map<string, string> := OldTestamentBooks + NewTestamentBooks

  /** _get_eng_book: the English name of a Korean book name, or None. */
  function GetEngBook(korBook: string): (r: Option<string>)
    ensures r.Some? <==> korBook in KorBookToEng
    ensures r.Some? ==> r.value == KorBookToEng[korBook]
  {
    if korBook in KorBookToEng then Some(KorBookToEng[korBook]) else None
  }

  /** is_valid: exactly the names _get_eng_book can translate. */
  function IsValid(korBook: string): (r: bool)
    ensures r <==> GetEngBook(korBook).Some?
  {
    korBook in KorBookToEng
  }

  lemma LawAndHistoryNamesUnspaced()
    ensures forall korBook :: korBook in LawAndHistoryBooks ==> ' ' !in korBook
  {
  }

  lemma PoetryAndProphetsNamesUnspaced()
    ensures forall korBook :: korBook in PoetryAndProphetsBooks ==> ' ' !in korBook
  {
  }

  lemma OldTestamentNamesUnspaced()
    ensures forall korBook :: korBook in OldTestamentBooks ==> ' ' !in korBook
  {
    LawAndHistoryNamesUnspaced();
    PoetryAndProphetsNamesUnspaced();
  }

  lemma GospelsAndActsNamesUnspaced()
    ensures forall korBook :: korBook in GospelsAndActsBooks ==> ' ' !in korBook
  {
  }

  lemma LettersNamesUnspaced()
    ensures forall korBook :: korBook in LettersBooks ==> ' ' !in korBook
  {
  }

  lemma NewTestamentNamesUnspaced()
    ensures forall korBook :: korBook in NewTestamentBooks ==> ' ' !in korBook
  {
    GospelsAndActsNamesUnspaced();
    LettersNamesUnspaced();
  }

  /** No Korean book name holds a space, so "{name} {chapter_verse}" splits back at the space. */
  lemma BookNamesUnspaced()
    ensures forall korBook :: korBook in KorBookToEng ==> ' ' !in korBook
  {
    OldTestamentNamesUnspaced();
    NewTestamentNamesUnspaced();
  }

  /** _is_alpha_unicode: despite its name, true only for the 52 ASCII letters. */
  function IsAlphaUnicode(ch: char): (r: bool)
    ensures r ==> ch as int < 128 && !IsDigit(ch) && !IsHangulSyllable(ch)
  {
    'a' <= ch <= 'z' || 'A' <= ch <= 'Z'
  }

  // ------------------------------------------------------ _remove_annotation

  /** The bracket counter after one character: '(' opens, ')' closes an open group. */
  function DepthAfter(depth: nat, ch: char): nat
  {
    var raised := if ch == '(' then depth + 1 else depth;
    if raised > 0 && ch == ')' then raised - 1 else raised
  }

  /** cnt_bracket after the loop has read s. */
  function Depth(s: string): nat
  {
    if s == [] then 0 else DepthAfter(Depth(s[..|s| - 1]), s[|s| - 1])
  }

  /** Whether the loop keeps ch when it reads it with the counter at depth. */
  predicate Keeps(depth: nat, ch: char)
  {
    depth == 0 && ch != '(' && !IsAlphaUnicode(ch)
  }

  /** `refined` after the loop has read s. */
  function Stripped(s: string): string
  {
    if s == [] then []
    else Stripped(s[..|s| - 1]) + (if Keeps(Depth(s[..|s| - 1]), s[|s| - 1]) then [s[|s| - 1]] else [])
  }

  /** What _remove_annotation returns. */
  function WithoutAnnotation(text: string): string
  {
    if !HasHangul(text) then text else Stripped(text)
  }

  method RemoveAnnotation(text: string) returns (refined: string)
    ensures refined == WithoutAnnotation(text)
    ensures !HasHangul(text) ==> refined == text
  {
    if !HasHangul(text) {
      return text;
    }
    refined := "";
    var cntBracket: nat := 0;
    for i := 0 to |text|
      invariant cntBracket == Depth(text[..i])
      invariant refined == Stripped(text[..i])
    {
      assert text[..i + 1][..i] == text[..i];
      var ch := text[i];
      if ch == '(' {
        cntBracket := cntBracket + 1;
      }
      if cntBracket > 0 {
        if ch == ')' {
          cntBracket := cntBracket - 1;
        }
        continue;
      }
      if !IsAlphaUnicode(ch) {
        refined := refined + [ch];
      }
    }
    assert text[..|text|] == text;
  }

  /** The result holds no '(' and no ASCII letter. */
  lemma {:induction false} StrippedIsClean(s: string)
    ensures forall i :: 0 <= i < |Stripped(s)| ==> Stripped(s)[i] != '(' && !IsAlphaUnicode(Stripped(s)[i])
  {
    if s != [] {
      StrippedIsClean(s[..|s| - 1]);
    }
  }

  /** a is b with some characters left out, the order of the rest kept. */
  predicate IsSubsequence(a: string, b: string)
  {
    if a == [] then true
    else if b == [] then false
    else
      || (a[|a| - 1] == b[|b| - 1] && IsSubsequence(a[..|a| - 1], b[..|b| - 1]))
      || IsSubsequence(a, b[..|b| - 1])
  }

  lemma {:induction false} SubsequenceShorter(a: string, b: string)
    requires IsSubsequence(a, b)
    ensures |a| <= |b|
  {
    if a != [] {
      if a[|a| - 1] == b[|b| - 1] && IsSubsequence(a[..|a| - 1], b[..|b| - 1]) {
        SubsequenceShorter(a[..|a| - 1], b[..|b| - 1]);
      } else {
        SubsequenceShorter(a, b[..|b| - 1]);
      }
    }
  }

  /** The loop only ever drops characters: it never adds, changes or reorders any. */
  lemma {:induction false} StrippedIsSubsequence(s: string)
    ensures IsSubsequence(Stripped(s), s)
    ensures |Stripped(s)| <= |s|
  {
    if s != [] {
      var init := s[..|s| - 1];
      StrippedIsSubsequence(init);
      var r := Stripped(s);
      if Keeps(Depth(init), s[|s| - 1]) {
        assert r[..|r| - 1] == Stripped(init);
      } else if r != [] {
        assert r == Stripped(init);
      }
      SubsequenceShorter(r, s);
    }
  }

  lemma DepthSnoc(s: string, ch: char)
    ensures Depth(s + [ch]) == DepthAfter(Depth(s), ch)
    ensures Stripped(s + [ch]) == Stripped(s) + (if Keeps(Depth(s), ch) then [ch] else [])
  {
    assert (s + [ch])[..|s|] == s;
  }

  /** Outside any group, the text before and the text after are stripped independently. */
  lemma {:induction false} StripConcat(a: string, b: string)
    requires Depth(a) == 0
    ensures Depth(a + b) == Depth(b)
    ensures Stripped(a + b) == Stripped(a) + Stripped(b)
  {
    if b == [] {
      assert a + b == a;
    } else {
      var init := b[..|b| - 1];
      StripConcat(a, init);
      assert a + b == (a + init) + [b[|b| - 1]];
      DepthSnoc(a + init, b[|b| - 1]);
    }
  }

  /** Inside a group with no ')', everything is dropped and the counter stays at depth. */
  lemma {:induction false} InsideGroup(a: string, g: string)
    requires Depth(a) > 0 && ')' !in g && '(' !in g
    ensures Depth(a + g) == Depth(a)
    ensures Stripped(a + g) == Stripped(a)
  {
    if g == [] {
      assert a + g == a;
    } else {
      var init := g[..|g| - 1];
      assert ')' !in init && '(' !in init;
      InsideGroup(a, init);
      assert a + g == (a + init) + [g[|g| - 1]];
      DepthSnoc(a + init, g[|g| - 1]);
    }
  }

  /** A parenthesised group without nested brackets disappears completely. */
  lemma GroupVanishes(g: string)
    requires ')' !in g && '(' !in g
    ensures Depth("(" + g + ")") == 0 && Stripped("(" + g + ")") == []
  {
    DepthSnoc([], '(');
    assert [] + ['('] == "(";
    InsideGroup("(", g);
    DepthSnoc("(" + g, ')');
  }

  /**
   * A bracketed group as the counter sees it: it opens with '(', the counter
   * stays above 0 inside it, and its last ')' brings the counter back to 0.
   */
  predicate IsGroup(g: string)
  {
    |g| > 0 && g[0] == '(' && Depth(g) == 0 && forall j :: 1 <= j < |g| ==> Depth(g[..j]) > 0
  }

  /** Every prefix of a group is dropped: the counter is above 0 after its opening '('. */
  lemma {:induction false} GroupPrefixDropped(g: string, k: nat)
    requires 0 < k <= |g| && g[0] == '(' && forall j :: 1 <= j < |g| ==> Depth(g[..j]) > 0
    ensures Stripped(g[..k]) == []
  {
    if k == 1 {
      assert g[..1] == [] + ['('];
      DepthSnoc([], '(');
    } else {
      GroupPrefixDropped(g, k - 1);
      assert g[..k] == g[..k - 1] + [g[k - 1]];
      assert Depth(g[..k - 1]) > 0;
      DepthSnoc(g[..k - 1], g[k - 1]);
    }
  }

  /**
   * An annotation between two texts is removed, nested brackets included, up
   * to the ')' that brings the counter back to 0; the texts around it are kept
   * as they would be on their own.
   */
  lemma AnnotationRemoved(a: string, g: string, b: string)
    requires Depth(a) == 0 && IsGroup(g)
    ensures Stripped(a + g + b) == Stripped(a) + Stripped(b)
  {
    GroupPrefixDropped(g, |g|);
    assert g[..|g|] == g;
    StripConcat(a, g);
    assert Stripped(a + g) == Stripped(a);
    StripConcat(a + g, b);
  }

  /** An annotation "(g)" without brackets inside is removed. */
  lemma FlatAnnotationRemoved(a: string, g: string, b: string)
    requires Depth(a) == 0 && ')' !in g && '(' !in g
    ensures Stripped(a + "(" + g + ")" + b) == Stripped(a) + Stripped(b)
  {
    GroupVanishes(g);
    StripConcat(a, "(" + g + ")");
    assert Stripped(a + ("(" + g + ")")) == Stripped(a);
    assert a + "(" + g + ")" + b == (a + ("(" + g + ")")) + b;
    StripConcat(a + ("(" + g + ")"), b);
  }

  /** A '(' that is never closed drops the whole rest of the text. */
  lemma UnclosedGroupDropsRest(a: string, b: string)
    requires Depth(a) > 0 && ')' !in b
    ensures Stripped(a + b) == Stripped(a)
  {
    UnclosedGroupDeepens(a, b);
  }

  lemma {:induction false} UnclosedGroupDeepens(a: string, b: string)
    requires Depth(a) > 0 && ')' !in b
    ensures Depth(a + b) >= Depth(a) && Stripped(a + b) == Stripped(a)
  {
    if b == [] {
      assert a + b == a;
    } else {
      var init := b[..|b| - 1];
      assert ')' !in init;
      UnclosedGroupDeepens(a, init);
      assert a + b == (a + init) + [b[|b| - 1]];
      DepthSnoc(a + init, b[|b| - 1]);
    }
  }

  /** The text with only its ASCII letters removed. */
  function WithoutLetters(s: string): (r: string)
  {
    if s == [] then [] else WithoutLetters(s[..|s| - 1]) + (if IsAlphaUnicode(s[|s| - 1]) then [] else [s[|s| - 1]])
  }

  /** Without any '(' only the letters are dropped; a stray ')' is kept. */
  lemma {:induction false} NoGroupOnlyLettersGo(s: string)
    requires '(' !in s
    ensures Depth(s) == 0 && Stripped(s) == WithoutLetters(s)
  {
    if s != [] {
      assert '(' !in s[..|s| - 1];
      NoGroupOnlyLettersGo(s[..|s| - 1]);
    }
  }

  lemma KoreanWordKept()
    ensures Depth("빛") == 0 && Stripped("빛") == "빛"
  {
    assert "빛"[..0] == [];
  }

  /** An English gloss in brackets after a Korean word: "빛(Light)" becomes "빛". */
  lemma GlossExample()
    ensures WithoutAnnotation("빛(Light)") == "빛"
  {
    KoreanWordKept();
    FlatAnnotationRemoved("빛", "Light", "");
    assert "빛" + "(" + "Light" + ")" + "" == "빛(Light)";
    assert IsHangulSyllable("빛(Light)"[0]);
  }

  /** The counter along the nested annotation "(가(나)다)": 1, 1, 2, 2, 1, 1, then 0. */
  lemma NestedGroup()
    ensures IsGroup("(가(나)다)")
  {
    var g := "(가(나)다)";
    forall k | 1 <= k <= |g|
      ensures g[..k][..k - 1] == g[..k - 1]
    {
    }
    assert Depth(g[..1]) == 1;
    assert Depth(g[..2]) == 1;
    assert Depth(g[..3]) == 2;
    assert Depth(g[..4]) == 2;
    assert Depth(g[..5]) == 1;
    assert Depth(g[..6]) == 1;
    assert g[..7] == g;
  }

  lemma KoreanSyllableKept()
    ensures Depth("라") == 0 && Stripped("라") == "라"
  {
    assert "라"[..0] == [];
  }

  /** A nested annotation goes as a whole: "빛(가(나)다)라" becomes "빛라". */
  lemma NestedGlossExample()
    ensures WithoutAnnotation("빛(가(나)다)라") == "빛라"
  {
    KoreanWordKept();
    KoreanSyllableKept();
    NestedGroup();
    AnnotationRemoved("빛", "(가(나)다)", "라");
    assert "빛" + "(가(나)다)" + "라" == "빛(가(나)다)라";
    assert IsHangulSyllable("빛(가(나)다)라"[0]);
  }

  // ------------------------------------------------------ _read_text_from_db

  /** The columns of a row of the verse query that the merge reads. */
  datatype Row = Row(chapter: int, verse: int, text: string)

  /** The `results` dict after the loop over rows: texts of one verse joined by " ". */
  function MergeRows(rows: seq<Row>): map<string, string>
  {
    if rows == [] then map[]
    else
      var merged := MergeRows(rows[..|rows| - 1]);
      var last := rows[|rows| - 1];
      var key := IntToString(last.verse);
      if key in merged then merged[key := merged[key] + " " + last.text] else merged[key := last.text]
  }

  /** The texts of the rows whose verse renders as key, in row order. */
  function TextsFor(rows: seq<Row>, key: string): seq<string>
  {
    if rows == [] then []
    else TextsFor(rows[..|rows| - 1], key) + (if IntToString(rows[|rows| - 1].verse) == key then [rows[|rows| - 1].text] else [])
  }

  /**
   * _read_text_from_db: nothing for a book the table does not know; otherwise
   * the rows of the query merged by verse. The rows the query returns are
   * the parameter.
   */
  method ReadTextFromDb(korBook: string, rows: seq<Row>) returns (results: map<string, string>)
    ensures GetEngBook(korBook).None? ==> results == map[]
    ensures GetEngBook(korBook).Some? ==> results == MergeRows(rows)
  {
    var engBook := GetEngBook(korBook);
    if engBook.None? {
      return map[];
    }
    results := MergeVerseRows(rows);
  }

  /** The loop of _read_text_from_db over the rows of the query. */
  method MergeVerseRows(rows: seq<Row>) returns (results: map<string, string>)
    ensures results == MergeRows(rows)
  {
    results := map[];
    for i := 0 to |rows|
      invariant results == MergeRows(rows[..i])
    {
      assert rows[..i + 1][..i] == rows[..i];
      var curr := rows[i];
      var key := IntToString(curr.verse);
      if key in results {
        results := results[key := results[key] + " " + curr.text];
      } else {
        results := results[key := curr.text];
      }
    }
    assert rows[..|rows|] == rows;
  }

  /**
   * The merge has a key for exactly the verses that have rows, and its value
   * is their texts, in row order, joined by single spaces.
   */
  lemma {:induction false} MergeRowsJoinsTexts(rows: seq<Row>, key: string)
    ensures key in MergeRows(rows) <==> |TextsFor(rows, key)| > 0
    ensures key in MergeRows(rows) ==> MergeRows(rows)[key] == Join(TextsFor(rows, key), ' ')
  {
    if rows != [] {
      var init := rows[..|rows| - 1];
      var last := rows[|rows| - 1];
      MergeRowsJoinsTexts(init, key);
      var texts := TextsFor(rows, key);
      if IntToString(last.verse) == key {
        assert texts == TextsFor(init, key) + [last.text];
        if |TextsFor(init, key)| > 0 {
          assert texts[..|texts| - 1] == TextsFor(init, key);
          assert Join(texts, ' ') == Join(TextsFor(init, key), ' ') + " " + last.text;
        } else {
          assert texts == [last.text];
        }
      } else {
        assert texts == TextsFor(init, key);
      }
    }
  }

  /** Some row of the verse exists when its texts are not empty. */
  lemma {:induction false} TextsWitness(rows: seq<Row>, key: string) returns (i: int)
    requires |TextsFor(rows, key)| > 0
    ensures 0 <= i < |rows| && IntToString(rows[i].verse) == key
  {
    var init := rows[..|rows| - 1];
    if IntToString(rows[|rows| - 1].verse) == key {
      i := |rows| - 1;
    } else {
      assert TextsFor(rows, key) == TextsFor(init, key);
      i := TextsWitness(init, key);
      assert init[i] == rows[i];
    }
  }

  /** The texts of a verse that has a row are not empty. */
  lemma {:induction false} TextsPresent(rows: seq<Row>, i: int)
    requires 0 <= i < |rows|
    ensures |TextsFor(rows, IntToString(rows[i].verse))| > 0
  {
    var init := rows[..|rows| - 1];
    if i < |rows| - 1 {
      assert init[i] == rows[i];
      TextsPresent(init, i);
    }
  }

  /** The keys of the merge are the verses of the rows, written with str(). */
  lemma MergeRowsKeys(rows: seq<Row>)
    ensures forall key :: key in MergeRows(rows) ==>
      exists i :: 0 <= i < |rows| && IntToString(rows[i].verse) == key
    ensures forall i :: 0 <= i < |rows| ==> IntToString(rows[i].verse) in MergeRows(rows)
  {
    forall key | key in MergeRows(rows)
      ensures exists i :: 0 <= i < |rows| && IntToString(rows[i].verse) == key
    {
      MergeRowsJoinsTexts(rows, key);
      var i := TextsWitness(rows, key);
    }
    forall i | 0 <= i < |rows|
      ensures IntToString(rows[i].verse) in MergeRows(rows)
    {
      TextsPresent(rows, i);
      MergeRowsJoinsTexts(rows, IntToString(rows[i].verse));
    }
  }

  /** A verse stored as one row keeps its text as it is. */
  lemma SingleRowVerse(rows: seq<Row>, i: int)
    requires 0 <= i < |rows|
    requires forall j :: 0 <= j < |rows| && j != i ==> rows[j].verse != rows[i].verse
    ensures IntToString(rows[i].verse) in MergeRows(rows)
    ensures MergeRows(rows)[IntToString(rows[i].verse)] == rows[i].text
  {
    var key := IntToString(rows[i].verse);
    TextsOfOnlyRow(rows, i);
    MergeRowsJoinsTexts(rows, key);
  }

  lemma {:induction false} TextsOfOnlyRow(rows: seq<Row>, i: int)
    requires 0 <= i < |rows|
    requires forall j :: 0 <= j < |rows| && j != i ==> rows[j].verse != rows[i].verse
    ensures TextsFor(rows, IntToString(rows[i].verse)) == [rows[i].text]
  {
    var key := IntToString(rows[i].verse);
    var init := rows[..|rows| - 1];
    if i == |rows| - 1 {
      forall j | 0 <= j < |init|
        ensures IntToString(init[j].verse) != key
      {
        if IntToString(init[j].verse) == key {
          IntToStringInjective(init[j].verse, rows[i].verse);
        }
      }
      TextsAbsent(init, key);
    } else {
      assert init[i] == rows[i];
      TextsOfOnlyRow(init, i);
      var last := rows[|rows| - 1];
      if IntToString(last.verse) == key {
        IntToStringInjective(last.verse, rows[i].verse);
      }
    }
  }

  lemma {:induction false} TextsAbsent(rows: seq<Row>, key: string)
    requires forall j :: 0 <= j < |rows| ==> IntToString(rows[j].verse) != key
    ensures TextsFor(rows, key) == []
  {
    if rows != [] {
      TextsAbsent(rows[..|rows| - 1], key);
    }
  }

  // ------------------------------------------------------ get_text

  /** What _read_text_from_db returns. */
  function TextOf(korBook: string, rows: seq<Row>): map<string, string>
  {
    if GetEngBook(korBook).Some? then MergeRows(rows) else map[]
  }

  /** The text get_text keeps for one verse. */
  function Refined(content: string, removeAnnotation: bool): string
  {
    if removeAnnotation then WithoutAnnotation(content) else content
  }

  /** What get_text returns: the merge, each text refined. */
  function RefinedTextOf(korBook: string, rows: seq<Row>, removeAnnotation: bool): map<string, string>
  {
    var text := TextOf(korBook, rows);
    map verse | verse in text :: Refined(text[verse], removeAnnotation)
  }

  /** get_text: every verse of the merge, with its annotation removed when asked. */
  method GetText(korBook: string, rows: seq<Row>, removeAnnotation: bool) returns (refinedText: map<string, string>)
    ensures refinedText == RefinedTextOf(korBook, rows, removeAnnotation)
  {
    var text := ReadTextFromDb(korBook, rows);
    refinedText := RefineTexts(text, removeAnnotation);
  }

  /** The loop of get_text over the verses read. */
  method RefineTexts(text: map<string, string>, removeAnnotation: bool) returns (refinedText: map<string, string>)
    ensures refinedText == map verse | verse in text :: Refined(text[verse], removeAnnotation)
  {
    refinedText := map[];
    var remaining := text.Keys;
    while remaining != {}
      invariant remaining <= text.Keys
      invariant refinedText.Keys == text.Keys - remaining
      invariant forall verse :: verse in refinedText ==> refinedText[verse] == Refined(text[verse], removeAnnotation)
      decreases remaining
    {
      var verse :| verse in remaining;
      var refinedContent;
      if removeAnnotation {
        refinedContent := RemoveAnnotation(text[verse]);
      } else {
        refinedContent := text[verse];
      }
      assert refinedContent == Refined(text[verse], removeAnnotation);
      refinedText := refinedText[verse := refinedContent];
      remaining := remaining - {verse};
    }
  }

  /**
   * With removal asked for, every text that has Hangul comes back without
   * '(' and without ASCII letters; a text without Hangul comes back as stored.
   */
  lemma RefinedTextIsClean(text: string)
    ensures !HasHangul(text) ==> WithoutAnnotation(text) == text
    ensures HasHangul(text) ==> forall i :: 0 <= i < |WithoutAnnotation(text)| ==>
      WithoutAnnotation(text)[i] != '(' && !IsAlphaUnicode(WithoutAnnotation(text)[i])
  {
    StrippedIsClean(text);
  }
}

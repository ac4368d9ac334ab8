/**
 * The parts of Python's `str` and `int` that the modelled code relies on:
 * `int(s)`, `str(n)`, `s.index(c)`, `s.replace(old, new)`, `s.split(sep)`, and
 * string concatenation in a loop.
 */
module Strings {
  import opened Wrappers

  predicate IsDigit(c: char) { '0' <= c <= '9' }

  /** A precomposed Hangul syllable, the class [가-힣]. */
  predicate IsHangulSyllable(c: char) { '가' <= c <= '힣' }

  /** `re.search("[가-힣]+", s)` finds something. */
  predicate HasHangul(s: string) { exists i :: 0 <= i < |s| && IsHangulSyllable(s[i]) }

  predicate AllDigits(s: string) { forall i :: 0 <= i < |s| ==> IsDigit(s[i]) }

  function DigitValue(c: char): (d: nat)
    requires IsDigit(c)
    ensures d < 10
  {
    c as int - '0' as int
  }

  function DigitChar(d: nat): (c: char)
    requires d < 10
    ensures IsDigit(c) && DigitValue(c) == d
  {
    ('0' as int + d) as char
  }

  /** The value of a run of ASCII digits, most significant first; leading zeros are allowed. */
  function Decimal(s: string): nat
    requires AllDigits(s)
  {
    if s == [] then 0 else 10 * Decimal(s[..|s| - 1]) + DigitValue(s[|s| - 1])
  }

  function Pow10(k: nat): (p: nat)
    ensures p >= 1
  {
    if k == 0 then 1 else 10 * Pow10(k - 1)
  }

  /** A run of k digits stands for a number below 10^k. */
  lemma {:induction false} DecimalBelow(s: string)
    requires AllDigits(s)
    ensures Decimal(s) < Pow10(|s|)
  {
    if s != [] {
      DecimalBelow(s[..|s| - 1]);
    }
  }

  /** `str(n)` for n >= 0: the decimal digits of n, without leading zeros. */
  function NatToString(n: nat): (s: string)
    ensures |s| > 0 && AllDigits(s)
    ensures n > 0 ==> s[0] != '0'
  {
    if n < 10 then [DigitChar(n)] else NatToString(n / 10) + [DigitChar(n % 10)]
  }

  /** Reading back what `str` wrote gives the number again. */
  lemma {:induction false} DecimalOfNatToString(n: nat)
    ensures Decimal(NatToString(n)) == n
  {
    if n >= 10 {
      var s := NatToString(n);
      assert s[..|s| - 1] == NatToString(n / 10);
      DecimalOfNatToString(n / 10);
    }
  }

  lemma NatToStringInjective(a: nat, b: nat)
    requires NatToString(a) == NatToString(b)
    ensures a == b
  {
    DecimalOfNatToString(a);
    DecimalOfNatToString(b);
  }

  /** `str(i)` for any integer. */
  function IntToString(i: int): string
  {
    if i < 0 then "-" + NatToString(-i) else NatToString(i)
  }

  /**
   * The literals `int()` accepts, as far as the model goes: an optional sign
   * followed by a non-empty run of ASCII digits.
   */
  predicate IsIntLiteral(s: string)
  {
    || (|s| > 0 && AllDigits(s))
    || (|s| > 1 && (s[0] == '+' || s[0] == '-') && AllDigits(s[1..]))
  }

  /** `int(s)`: the value of an integer literal, or None where Python raises ValueError. */
  function PyInt(s: string): (r: Option<int>)
    ensures r.Some? <==> IsIntLiteral(s)
    ensures r.Some? && AllDigits(s) ==> r.value >= 0
  {
    if |s| > 0 && AllDigits(s) then Some(Decimal(s))
    else if |s| > 1 && (s[0] == '+' || s[0] == '-') && AllDigits(s[1..]) then
      var magnitude: int := Decimal(s[1..]);
      Some(if s[0] == '-' then -magnitude else magnitude)
    else None
  }

  /** `int(str(i)) == i`. */
  lemma IntToStringRoundTrip(i: int)
    ensures PyInt(IntToString(i)) == Some(i)
  {
    if i < 0 {
      var s := IntToString(i);
      assert s[0] == '-' && s[1..] == NatToString(-i);
      assert !AllDigits(s) by { assert !IsDigit(s[0]); }
      DecimalOfNatToString(-i);
      assert PyInt(s) == Some(0 - Decimal(s[1..]));
    } else {
      DecimalOfNatToString(i);
    }
  }

  lemma IntToStringInjective(a: int, b: int)
    requires IntToString(a) == IntToString(b)
    ensures a == b
  {
    IntToStringRoundTrip(a);
    IntToStringRoundTrip(b);
  }

  /** `s.index(c)`: the position of the first occurrence of c. */
  function IndexOf(s: string, c: char): (k: nat)
    requires c in s
    ensures k < |s| && s[k] == c && c !in s[..k]
  {
    if s[0] == c then 0 else 1 + IndexOf(s[1..], c)
  }

  lemma IndexOfAfterPrefix(head: string, c: char, tail: string)
    requires c !in head
    ensures c in head + [c] + tail && IndexOf(head + [c] + tail, c) == |head|
  {
    var s := head + [c] + tail;
    assert s[..|head|] == head && s[|head|] == c;
  }

  /** The number of occurrences of c in s. */
  function Count(s: string, c: char): nat
  {
    if s == [] then 0 else Count(s[..|s| - 1], c) + (if s[|s| - 1] == c then 1 else 0)
  }

  lemma {:induction false} CountConcat(a: string, b: string, c: char)
    ensures Count(a + b, c) == Count(a, c) + Count(b, c)
  {
    if b != [] {
      assert (a + b)[..|a + b| - 1] == a + b[..|b| - 1];
      assert Count(a + b, c) == Count(a + b[..|b| - 1], c) + (if b[|b| - 1] == c then 1 else 0);
      assert Count(b, c) == Count(b[..|b| - 1], c) + (if b[|b| - 1] == c then 1 else 0);
      CountConcat(a, b[..|b| - 1], c);
    } else {
      assert a + b == a;
    }
  }

  lemma {:induction false} CountAbsent(s: string, c: char)
    requires c !in s
    ensures Count(s, c) == 0
  {
    if s != [] {
      assert c !in s[..|s| - 1];
      CountAbsent(s[..|s| - 1], c);
    }
  }

  /** pat occurs in s starting at position i. */
  predicate OccursAt(s: string, pat: string, i: nat)
  {
    i + |pat| <= |s| && s[i..i + |pat|] == pat
  }

  /** t occurs somewhere in s. */
  ghost predicate Contains(s: string, t: string)
  {
    exists i: nat :: OccursAt(s, t, i)
  }

  lemma ContainsInfix(p: string, t: string, q: string)
    ensures OccursAt(p + t + q, t, |p|) && Contains(p + t + q, t)
  {
    var k: nat := |p|;
    assert (p + t + q)[k..k + |t|] == t;
    assert OccursAt(p + t + q, t, k);
  }

  /** Text appended after an occurrence leaves it in place. */
  lemma ContainsExtend(s: string, t: string, q: string)
    requires Contains(s, t)
    ensures Contains(s + q, t)
  {
    var i: nat :| OccursAt(s, t, i);
    assert (s + q)[i..i + |t|] == s[i..i + |t|];
    assert OccursAt(s + q, t, i);
  }

  /** pat occurs nowhere in s. */
  predicate Absent(s: string, pat: string)
  {
    forall i: nat :: i + |pat| <= |s| ==> !OccursAt(s, pat, i)
  }

  /**
   * `s.replace(pat, rep)`: every occurrence of pat, found scanning from the left
   * and never overlapping a previous one, is replaced by rep.
   */
  function ReplaceAll(s: string, pat: string, rep: string): string
    requires pat != []
    decreases |s|
  {
    if |s| < |pat| then s
    else if s[..|pat|] == pat then rep + ReplaceAll(s[|pat|..], pat, rep)
    else [s[0]] + ReplaceAll(s[1..], pat, rep)
  }

  lemma AbsentInTail(s: string, pat: string)
    requires |s| > 0 && Absent(s, pat)
    ensures Absent(s[1..], pat)
  {
    forall i: nat | i + |pat| <= |s| - 1
      ensures !OccursAt(s[1..], pat, i)
    {
      assert s[1..][i..i + |pat|] == s[i + 1..i + 1 + |pat|];
      assert !OccursAt(s, pat, i + 1);
    }
  }

  /** A string without the pattern comes out of `replace` unchanged. */
  lemma {:induction false} ReplaceAbsent(s: string, pat: string, rep: string)
    requires pat != [] && Absent(s, pat)
    ensures ReplaceAll(s, pat, rep) == s
  {
    if |s| >= |pat| {
      assert !OccursAt(s, pat, 0);
      AbsentInTail(s, pat);
      ReplaceAbsent(s[1..], pat, rep);
      assert s == [s[0]] + s[1..];
    }
  }

  /**
   * When the first occurrence of pat in pre + pat + post is the one after pre,
   * `replace` keeps pre, substitutes that occurrence and goes on with post.
   */
  lemma {:induction false} ReplaceFirstOccurrence(pre: string, pat: string, post: string, rep: string)
    requires pat != []
    requires forall i: nat :: i < |pre| ==> !OccursAt(pre + pat + post, pat, i)
    ensures ReplaceAll(pre + pat + post, pat, rep) == pre + rep + ReplaceAll(post, pat, rep)
  {
    var s := pre + pat + post;
    if pre == [] {
      assert s[..|pat|] == pat && s[|pat|..] == post;
    } else {
      assert !OccursAt(s, pat, 0);
      var t := pre[1..] + pat + post;
      assert s[1..] == t;
      forall i: nat | i < |pre| - 1
        ensures !OccursAt(t, pat, i)
      {
        assert !OccursAt(s, pat, i + 1);
        if i + |pat| <= |t| {
          assert t[i..i + |pat|] == s[i + 1..i + 1 + |pat|];
        }
      }
      ReplaceFirstOccurrence(pre[1..], pat, post, rep);
      assert [s[0]] + (pre[1..] + rep + ReplaceAll(post, pat, rep)) == pre + rep + ReplaceAll(post, pat, rep);
    }
  }

  /**
   * A template holding the pattern exactly once: `replace` substitutes that one
   * occurrence and leaves everything around it as it was.
   */
  lemma ReplaceOnlyOccurrence(pre: string, pat: string, post: string, rep: string)
    requires pat != []
    requires forall i: nat :: OccursAt(pre + pat + post, pat, i) ==> i == |pre|
    ensures ReplaceAll(pre + pat + post, pat, rep) == pre + rep + post
  {
    var s := pre + pat + post;
    forall i: nat | i + |pat| <= |post|
      ensures !OccursAt(post, pat, i)
    {
      var j: nat := |pre| + |pat| + i;
      assert post[i..i + |pat|] == s[j..j + |pat|];
      assert OccursAt(post, pat, i) ==> OccursAt(s, pat, j);
    }
    ReplaceFirstOccurrence(pre, pat, post, rep);
    ReplaceAbsent(post, pat, rep);
  }

  /** Replacing one character by another works character by character and keeps the length. */
  lemma {:induction false} ReplaceCharPointwise(s: string, a: char, b: char)
    ensures |ReplaceAll(s, [a], [b])| == |s|
    ensures forall i :: 0 <= i < |s| ==> ReplaceAll(s, [a], [b])[i] == if s[i] == a then b else s[i]
  {
    if s != [] {
      ReplaceCharPointwise(s[1..], a, b);
    }
  }

  /** After replacing a by a different character, a no longer occurs. */
  lemma ReplaceCharRemoves(s: string, a: char, b: char)
    requires a != b
    ensures a !in ReplaceAll(s, [a], [b])
  {
    ReplaceCharPointwise(s, a, b);
  }

  /** `s.split(sep)` with an explicit separator: empty parts are kept. */
  function Split(s: string, sep: char): (parts: seq<string>)
    ensures |parts| == Count(s, sep) + 1
    ensures forall i :: 0 <= i < |parts| ==> sep !in parts[i]
  {
    if s == [] then [[]]
    else
      var init := Split(s[..|s| - 1], sep);
      if s[|s| - 1] == sep then init + [[]]
      else init[..|init| - 1] + [init[|init| - 1] + [s[|s| - 1]]]
  }

  /** `sep.join(parts)`. */
  function Join(parts: seq<string>, sep: char): string
    requires |parts| > 0
  {
    if |parts| == 1 then parts[0] else Join(parts[..|parts| - 1], sep) + [sep] + parts[|parts| - 1]
  }

  lemma JoinLastGrows(parts: seq<string>, sep: char, c: char)
    requires |parts| > 0
    ensures Join(parts[..|parts| - 1] + [parts[|parts| - 1] + [c]], sep) == Join(parts, sep) + [c]
  {
    var q := parts[..|parts| - 1] + [parts[|parts| - 1] + [c]];
    if |parts| > 1 {
      assert q[..|q| - 1] == parts[..|parts| - 1];
    }
  }

  /** Joining the parts of a split with the same separator gives the string back. */
  lemma {:induction false} JoinSplit(s: string, sep: char)
    ensures Join(Split(s, sep), sep) == s
  {
    if s != [] {
      var init := Split(s[..|s| - 1], sep);
      JoinSplit(s[..|s| - 1], sep);
      if s[|s| - 1] == sep {
        assert (init + [[]])[..|init|] == init;
      } else {
        JoinLastGrows(init, sep, s[|s| - 1]);
      }
      assert s[..|s| - 1] + [s[|s| - 1]] == s;
    }
  }

  /** A string with exactly one separator splits into the parts on either side of it. */
  lemma SplitAtOnlySeparator(a: string, b: string, sep: char)
    requires sep !in a && sep !in b
    ensures Split(a + [sep] + b, sep) == [a, b]
  {
    var s := a + [sep] + b;
    CountConcat(a + [sep], b, sep);
    CountConcat(a, [sep], sep);
    CountAbsent(a, sep);
    CountAbsent(b, sep);
    assert [sep][..0] == [];
    var parts := Split(s, sep);
    JoinSplit(s, sep);
    assert parts[..1] == [parts[0]];
    assert s == parts[0] + [sep] + parts[1];
    SeparatorPosition(a, b, parts[0], parts[1], sep);
    assert parts[0] == s[..|a|] == a;
    assert parts[1] == s[|a| + 1..] == b;
  }

  lemma SeparatorPosition(a: string, b: string, p: string, q: string, sep: char)
    requires sep !in a && sep !in p && a + [sep] + b == p + [sep] + q
    ensures |a| == |p|
  {
    if |a| < |p| {
      SeparatorInside(a, b, p, q, sep);
      assert false;
    } else if |p| < |a| {
      SeparatorInside(p, q, a, b, sep);
      assert false;
    }
  }

  lemma SeparatorInside(a: string, b: string, p: string, q: string, sep: char)
    requires |a| < |p| && a + [sep] + b == p + [sep] + q
    ensures sep in p
  {
    assert (a + [sep] + b)[|a|] == sep;
    assert (p + [sep] + q)[|a|] == p[|a|];
  }
}

/** Mission codes `PSM-YYYYMMDD-NNN` (services/mission_service/
    mission_creator.py, `_generate_mission_code`): the highest existing code
    of the day is found with `ORDER BY mission_code DESC`, its last
    '-'-separated segment is parsed and incremented, and the result is
    zero-padded to three digits. */
module MissionCode {
  import opened Basics
  import opened Text

  datatype Date = Date(year: nat, month: nat, day: nat)

  /** `strftime('%Y%m%d')`. */
  function DateStamp(d: Date): (s: string)
    ensures AllDigits(s) && '-' !in s
  {
    var s := ZeroPad(d.year, 4) + ZeroPad(d.month, 2) + ZeroPad(d.day, 2);
    assert forall i :: 0 <= i < |s| ==> IsDigit(s[i]) by {
      var a, b, c := ZeroPad(d.year, 4), ZeroPad(d.month, 2), ZeroPad(d.day, 2);
      forall i | 0 <= i < |s| ensures IsDigit(s[i]) {
        if i < |a| { assert s[i] == a[i]; }
        else if i < |a| + |b| { assert s[i] == b[i - |a|]; }
        else { assert s[i] == c[i - |a| - |b|]; }
      }
    }
    s
  }

  /** `f"PSM-{today}-"`. */
  function CodePrefix(d: Date): string {
    "PSM-" + DateStamp(d) + "-"
  }

  predicate HasPrefix(s: string, p: string) {
    |p| <= |s| && s[..|p|] == p
  }

  /** `code.split('-')[-1]`. */
  function LastSegment(code: string): string {
    var parts := Split(code, '-');
    parts[|parts| - 1]
  }

  /** The code numbered `n` on day `d`. */
  function CodeFor(d: Date, n: nat): string {
    CodePrefix(d) + ZeroPad(n, 3)
  }

  /** The number at the end of a code, when `int()` accepts it. */
  function SuffixOf(code: string): Option<nat> {
    ParseNat(LastSegment(code))
  }

  /** A code built for day `d` carries that day's prefix, and its last
      segment parses back to the number it was built from. */
  lemma {:induction false} CodeForRoundTrip(d: Date, n: nat)
    ensures HasPrefix(CodeFor(d, n), CodePrefix(d))
    ensures SuffixOf(CodeFor(d, n)) == Some(n)
  {
    var stamp, pad := DateStamp(d), ZeroPad(n, 3);
    var parts := ["PSM", stamp, pad];
    assert parts[1..] == [stamp, pad] && parts[1..][1..] == [pad];
    assert Join(parts[1..], '-') == stamp + ['-'] + pad;
    assert Join(parts, '-') == "PSM" + ['-'] + (stamp + ['-'] + pad);
    assert CodeFor(d, n) == Join(parts, '-');
    assert forall i :: 0 <= i < |parts| ==> '-' !in parts[i];
    SplitJoin(parts, '-');
    assert (CodePrefix(d) + pad)[..|CodePrefix(d)|] == CodePrefix(d);
  }

  /** The codes of day `d` (`mission_code LIKE 'PSM-YYYYMMDD-%'`). */
  function CodesOfDay(codes: seq<string>, d: Date): (r: seq<string>)
    ensures forall c :: c in r <==> c in codes && HasPrefix(c, CodePrefix(d))
  {
    if |codes| == 0 then []
    else
      assert forall c :: c in codes <==> c == codes[0] || c in codes[1..];
      (if HasPrefix(codes[0], CodePrefix(d)) then [codes[0]] else []) + CodesOfDay(codes[1..], d)
  }

  /** When every code carries the day's prefix, the query selects them all. */
  lemma {:induction false} CodesOfDayAll(codes: seq<string>, d: Date)
    requires forall i :: 0 <= i < |codes| ==> HasPrefix(codes[i], CodePrefix(d))
    ensures CodesOfDay(codes, d) == codes
  {
    if |codes| > 0 {
      CodesOfDayAll(codes[1..], d);
    }
  }

  /** The first code under `ORDER BY mission_code DESC`. */
  function LexMax(codes: seq<string>): (m: string)
    requires |codes| > 0
    ensures m in codes
    ensures forall i :: 0 <= i < |codes| ==> LexLe(codes[i], m)
  {
    if |codes| == 1 then
      LexLeRefl(codes[0]);
      codes[0]
    else
      var r := LexMax(codes[1..]);
      LexLeTotal(r, codes[0]);
      if LexLe(r, codes[0]) then
        assert forall i :: 1 <= i < |codes| ==> LexLe(codes[i], codes[0]) by {
          forall i | 1 <= i < |codes| ensures LexLe(codes[i], codes[0]) {
            assert codes[i] == codes[1..][i - 1];
            LexLeTrans(codes[i], r, codes[0]);
          }
        }
        LexLeRefl(codes[0]);
        codes[0]
      else
        assert forall i :: 1 <= i < |codes| ==> LexLe(codes[i], r) by {
          forall i | 1 <= i < |codes| ensures LexLe(codes[i], r) {
            assert codes[i] == codes[1..][i - 1];
          }
        }
        r
  }

  /** `_generate_mission_code` as written: one more than the number in the
      lexicographically greatest code of the day, or 1 when there is no code
      of the day or its suffix does not parse. */
  function GenerateCodeAsWritten(codes: seq<string>, today: Date): (code: string)
    ensures HasPrefix(code, CodePrefix(today))
    ensures CodesOfDay(codes, today) == [] ==> code == CodeFor(today, 1)
    ensures CodesOfDay(codes, today) != [] && SuffixOf(LexMax(CodesOfDay(codes, today))).None?
      ==> code == CodeFor(today, 1)
  {
    var next := NextNumberAsWritten(CodesOfDay(codes, today));
    CodeForRoundTrip(today, next);
    CodeFor(today, next)
  }

  /** The number `_generate_mission_code` gives the next code of a day whose
      codes are `todays`. */
  function NextNumberAsWritten(todays: seq<string>): (n: nat)
    ensures todays == [] ==> n == 1
    ensures |todays| > 0 && SuffixOf(LexMax(todays)).None? ==> n == 1
    ensures n >= 1
  {
    if |todays| == 0 then 1
    else match SuffixOf(LexMax(todays))
      case Some(n) => n + 1
      case None => 1
  }

  /** The largest number found at the end of a code (0 when none parses). */
  function MaxSuffix(codes: seq<string>): (m: nat)
    ensures forall i :: 0 <= i < |codes| && SuffixOf(codes[i]).Some? ==> SuffixOf(codes[i]).value <= m
    ensures m > 0 ==> exists i :: 0 <= i < |codes| && SuffixOf(codes[i]) == Some(m)
  {
    if |codes| == 0 then 0
    else
      var rest := MaxSuffix(codes[1..]);
      var here := SuffixOf(codes[0]).GetOr(0);
      assert forall i :: 1 <= i < |codes| ==> codes[i] == codes[1..][i - 1];
      Max(here, rest)
  }

  /** The intended code generation: one more than the largest
      number of the day compared numerically. */
  function GenerateCode(codes: seq<string>, today: Date): string {
    CodeFor(today, MaxSuffix(CodesOfDay(codes, today)) + 1)
  }

  /** The numerically generated code carries the day's prefix, its number
      exceeds every number already used that day, and it is never a code
      that already exists; the first code of a day is numbered 1. */
  lemma GenerateCodeFresh(codes: seq<string>, today: Date)
    ensures var code := GenerateCode(codes, today);
      && HasPrefix(code, CodePrefix(today))
      && SuffixOf(code).Some?
      && (forall c :: c in codes && HasPrefix(c, CodePrefix(today)) && SuffixOf(c).Some? ==>
            SuffixOf(c).value < SuffixOf(code).value)
      && code !in codes
      && (CodesOfDay(codes, today) == [] ==> code == CodeFor(today, 1))
  {
    var next := MaxSuffix(CodesOfDay(codes, today)) + 1;
    CodeForRoundTrip(today, next);
    SuffixesBelowMax(codes, today);
    assert GenerateCode(codes, today) == CodeFor(today, next);
  }

  /** Every number used on the day is at most the largest one. */
  lemma SuffixesBelowMax(codes: seq<string>, today: Date)
    ensures forall c :: c in codes && HasPrefix(c, CodePrefix(today)) && SuffixOf(c).Some? ==>
      SuffixOf(c).value <= MaxSuffix(CodesOfDay(codes, today))
  {
    var todays := CodesOfDay(codes, today);
    forall c | c in codes && HasPrefix(c, CodePrefix(today)) && SuffixOf(c).Some?
      ensures SuffixOf(c).value <= MaxSuffix(todays)
    {
      var i :| 0 <= i < |todays| && todays[i] == c;
    }
  }

  // ---------------------------------------------------------------------
  // The lexicographic maximum agrees with the numeric one up to 999
  // ---------------------------------------------------------------------

  lemma NatToDigitsAtMostThree(n: nat)
    requires n <= 999
    ensures |NatToDigits(n)| <= 3
  {
    if n >= 10 {
      var q := n / 10;
      assert q <= 99;
      if q >= 10 {
        assert q / 10 <= 9;
        assert |NatToDigits(q / 10)| == 1;
        assert |NatToDigits(q)| == 2;
      } else {
        assert |NatToDigits(q)| == 1;
      }
    }
  }

  lemma ZeroPadThreeDigits(n: nat)
    requires n <= 999
    ensures |ZeroPad(n, 3)| == 3
  {
    NatToDigitsAtMostThree(n);
  }

  lemma ThreeDigitValue(s: string)
    requires |s| == 3 && AllDigits(s)
    ensures DigitsValue(s) == DigitValue(s[0]) * 100 + DigitValue(s[1]) * 10 + DigitValue(s[2])
  {
    var a, b := s[..1], s[..2];
    assert b[..1] == a && a[..0] == [];
    assert DigitsValue(a) == DigitValue(s[0]);
    assert DigitsValue(b) == DigitsValue(a) * 10 + DigitValue(s[1]);
    assert DigitsValue(s) == DigitsValue(b) * 10 + DigitValue(s[2]);
  }

  lemma LexLeThreeDigits(s: string, t: string)
    requires |s| == 3 && |t| == 3 && AllDigits(s) && AllDigits(t)
    requires LexLe(s, t)
    ensures DigitsValue(s) <= DigitsValue(t)
  {
    ThreeDigitValue(s);
    ThreeDigitValue(t);
    var v0, v1, v2 := DigitValue(s[0]), DigitValue(s[1]), DigitValue(s[2]);
    var w0, w1, w2 := DigitValue(t[0]), DigitValue(t[1]), DigitValue(t[2]);
    assert v1 <= 9 && v2 <= 9 && w1 <= 9 && w2 <= 9;
    if s[0] != t[0] {
      assert v0 < w0;
    } else {
      var s1, t1 := s[1..], t[1..];
      assert LexLe(s1, t1);
      assert s1[0] == s[1] && t1[0] == t[1];
      if s[1] != t[1] {
        assert v1 < w1;
      } else {
        assert LexLe(s1[1..], t1[1..]);
        assert s1[1..][0] == s[2] && t1[1..][0] == t[2];
        assert v2 <= w2;
      }
    }
  }

  /** Codes of one day numbered up to 999 compare lexicographically as
      their numbers do. */
  lemma CodesCompareNumerically(d: Date, n: nat, m: nat)
    requires n <= 999 && m <= 999
    requires LexLe(CodeFor(d, n), CodeFor(d, m))
    ensures n <= m
  {
    LexLeCommonPrefix(CodePrefix(d), ZeroPad(n, 3), ZeroPad(m, 3));
    ZeroPadThreeDigits(n);
    ZeroPadThreeDigits(m);
    LexLeThreeDigits(ZeroPad(n, 3), ZeroPad(m, 3));
  }

  /** `c` is the code of day `d` numbered `n` for some `n` from 1 to 999. */
  ghost predicate NumberedBelowThousand(c: string, d: Date) {
    exists n: nat :: 1 <= n <= 999 && c == CodeFor(d, n)
  }

  /** While every code of the day is `CodeFor(today, n)` for some n up to
      999, the code generated as written (lexicographic maximum) is the same
      as the numerically generated one, hence fresh. */
  lemma AsWrittenAgreesBelowThousand(codes: seq<string>, today: Date)
    requires forall c :: c in codes && HasPrefix(c, CodePrefix(today)) ==> NumberedBelowThousand(c, today)
    ensures GenerateCodeAsWritten(codes, today) == GenerateCode(codes, today)
    ensures GenerateCodeAsWritten(codes, today) !in codes
  {
    var todays := CodesOfDay(codes, today);
    if |todays| > 0 {
      forall i | 0 <= i < |todays| ensures NumberedBelowThousand(todays[i], today) {
        assert todays[i] in codes;
      }
      TopSuffixIsMax(todays, today);
      assert NextNumberAsWritten(todays) == MaxSuffix(todays) + 1;
    }
    GenerateCodeFresh(codes, today);
  }

  /** The number of a code numbered below a thousand. */
  lemma NumberOf(c: string, d: Date) returns (n: nat)
    requires NumberedBelowThousand(c, d)
    ensures 1 <= n <= 999 && c == CodeFor(d, n) && SuffixOf(c) == Some(n)
  {
    n :| 1 <= n <= 999 && c == CodeFor(d, n);
    CodeForRoundTrip(d, n);
  }

  /** Among codes of one day numbered 1 to 999, the lexicographically
      greatest one carries the greatest number. */
  lemma TopSuffixIsMax(todays: seq<string>, today: Date)
    requires |todays| > 0
    requires forall i :: 0 <= i < |todays| ==> NumberedBelowThousand(todays[i], today)
    ensures SuffixOf(LexMax(todays)) == Some(MaxSuffix(todays))
  {
    var top := LexMax(todays);
    var k :| 0 <= k < |todays| && todays[k] == top;
    var nTop := NumberOf(top, today);
    var m := MaxSuffix(todays);
    assert m >= nTop;
    var i :| 0 <= i < |todays| && SuffixOf(todays[i]) == Some(m);
    var n := NumberOf(todays[i], today);
    assert LexLe(todays[i], top);
    CodesCompareNumerically(today, n, nTop);
    assert m == nTop;
  }

  lemma PadOfNineNineNine()
    ensures ZeroPad(999, 3) == "999"
  {
    assert NatToDigits(9) == "9";
    assert NatToDigits(99) == NatToDigits(9) + "9";
    assert NatToDigits(999) == NatToDigits(99) + "9";
  }

  lemma PadOfThousand()
    ensures ZeroPad(1000, 3) == "1000"
  {
    assert NatToDigits(1) == "1";
    assert NatToDigits(10) == NatToDigits(1) + "0";
    assert NatToDigits(100) == NatToDigits(10) + "0";
    assert NatToDigits(1000) == NatToDigits(100) + "0";
  }

  /** The thousandth code of a day: once "...-999" and "...-1000" both exist,
      "...-999" is still the lexicographic maximum, so the code generated as
      written is "...-1000" again, a code that already exists. */
  lemma AsWrittenRepeatsAfterThousand(today: Date)
    ensures var codes := [CodeFor(today, 999), CodeFor(today, 1000)];
            GenerateCodeAsWritten(codes, today) == CodeFor(today, 1000) &&
            GenerateCodeAsWritten(codes, today) in codes
  {
    PadOfNineNineNine();
    PadOfThousand();
    RepeatsWhenPadsCompare(today, 999, 1000);
  }

  /** Two codes of one day whose padded numbers compare the other way round
      from the numbers: the code generated as written repeats the larger. */
  lemma RepeatsWhenPadsCompare(today: Date, n: nat, m: nat)
    requires ZeroPad(n, 3) == "999" && ZeroPad(m, 3) == "1000" && m == n + 1
    ensures var codes := [CodeFor(today, n), CodeFor(today, m)];
            GenerateCodeAsWritten(codes, today) == CodeFor(today, m) &&
            GenerateCodeAsWritten(codes, today) in codes
  {
    var p := CodePrefix(today);
    var a, b := CodeFor(today, n), CodeFor(today, m);
    var codes := [a, b];
    CodeForRoundTrip(today, n);
    CodeForRoundTrip(today, m);
    assert codes[0] == a && codes[1] == b && |codes| == 2;
    CodesOfDayAll(codes, today);
    LexLeCommonPrefix(p, "1000", "999");
    assert LexLe("1000", "999");
    LexMaxOfTwo(a, b);
  }

  lemma LexMaxOfTwo(a: string, b: string)
    requires LexLe(b, a)
    ensures LexMax([a, b]) == a
  {
    assert [a, b][1..] == [b];
  }
}

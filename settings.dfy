/** The class-name choices of the settings page (ssis/settings/index.jsx): the classes of the
    current and the three previous school years, named "TE", the year's last two digits
    padded to two characters, and a letter A to D. The calendar year is an input. */
module Settings {
  import Schedule

  /** One entry of the class picker. */
  datatype ClassOption = ClassOption(name: string, value: string)

  const Letters: string := "ABCD"

  function DigitChar(d: nat): char
    requires d < 10
  {
    ('0' as int + d) as char
  }

  function DigitValue(c: char): int
  {
    c as int - '0' as int
  }

  /** `n.toString()` for a natural number. */
  function NatToString(n: nat): string
  {
    if n < 10 then [DigitChar(n)] else NatToString(n / 10) + [DigitChar(n % 10)]
  }

  /** `n.toString()` for an integer: a minus sign in front of a negative one. */
  function IntToString(n: int): string
  {
    if n < 0 then "-" + NatToString(-n) else NatToString(n)
  }

  /** `s.padStart(2)`: spaces in front up to two characters. */
  function PadStart2(s: string): (r: string)
    ensures |r| == (if |s| >= 2 then |s| else 2)
    ensures forall k | 0 <= k < |s| :: r[|r| - |s| + k] == s[k]
    ensures forall k | 0 <= k < |r| - |s| :: r[k] == ' '
  {
    if |s| >= 2 then s else if |s| == 1 then [' ', s[0]] else "  "
  }

  /** `parseInt` of a run of decimal digits. */
  function ParseDigits(s: string): int
  {
    if s == [] then 0 else 10 * ParseDigits(s[..|s| - 1]) + DigitValue(s[|s| - 1])
  }

  /** `s.substring(start, end)` for `start <= end`: indices past the end are clamped. */
  function Substring(s: string, start: nat, end: nat): (r: string)
    requires start <= end
    ensures |r| <= end - start
  {
    if |s| <= start then [] else if |s| <= end then s[start..] else s[start..end]
  }

  /** `parseInt(fullYear.toString().substring(2, 4))` for a four-digit year. */
  function CurrentYear(fullYear: int): int
    requires 1000 <= fullYear <= 9999
  {
    ParseDigits(Substring(NatToString(fullYear), 2, 4))
  }

  function EarliestClassYear(fullYear: int): int
    requires 1000 <= fullYear <= 9999
  {
    CurrentYear(fullYear) - 3
  }

  /** The option for one class: the name and, as its value, the lowercased name. */
  function OptionFor(year: int, letter: char): ClassOption
  {
    var name := "TE" + PadStart2(IntToString(year)) + [letter];
    ClassOption(name, Schedule.ToLower(name))
  }

  /** The current class year is the last two digits of the calendar year. */
  lemma {:induction false} CurrentYearIsLastTwoDigits(fullYear: int)
    requires 1000 <= fullYear <= 9999
    ensures CurrentYear(fullYear) == fullYear % 100
    ensures 0 <= CurrentYear(fullYear) <= 99
  {
    var d0, d1, d2, d3 := fullYear % 10, fullYear / 10 % 10, fullYear / 100 % 10, fullYear / 1000;
    assert NatToString(fullYear / 1000) == [DigitChar(d3)];
    assert NatToString(fullYear / 100) == [DigitChar(d3), DigitChar(d2)];
    assert NatToString(fullYear / 10) == [DigitChar(d3), DigitChar(d2), DigitChar(d1)];
    var s := NatToString(fullYear);
    assert s == [DigitChar(d3), DigitChar(d2), DigitChar(d1), DigitChar(d0)];
    var t := Substring(s, 2, 4);
    assert t == [DigitChar(d1), DigitChar(d0)];
    assert t[..1] == [DigitChar(d1)];
    assert ParseDigits(t[..1][..0]) == 0;
    assert ParseDigits(t) == 10 * d1 + d0;
  }

  /** The padded year text of a class year from -9 to 99 has exactly two characters, and the
      year can be read back from it: a space or a minus sign before one digit, or two digits. */
  function ReadPaddedYear(p: string): int
    requires |p| == 2
  {
    if p[0] == ' ' then DigitValue(p[1])
    else if p[0] == '-' then -DigitValue(p[1])
    else 10 * DigitValue(p[0]) + DigitValue(p[1])
  }

  lemma PaddedYearRoundTrip(year: int)
    requires -9 <= year <= 99
    ensures |PadStart2(IntToString(year))| == 2
    ensures ReadPaddedYear(PadStart2(IntToString(year))) == year
  {
    if year < 0 {
      PaddedNegative(year);
    } else if year < 10 {
      PaddedOneDigit(year);
    } else {
      PaddedTwoDigits(year);
    }
  }

  lemma PaddedNegative(year: int)
    requires -9 <= year < 0
    ensures PadStart2(IntToString(year)) == ['-', DigitChar(-year)]
    ensures ReadPaddedYear(['-', DigitChar(-year)]) == year
  {
    assert NatToString(-year) == [DigitChar(-year)];
    assert IntToString(year) == ['-', DigitChar(-year)];
  }

  lemma PaddedOneDigit(year: int)
    requires 0 <= year < 10
    ensures PadStart2(IntToString(year)) == [' ', DigitChar(year)]
    ensures ReadPaddedYear([' ', DigitChar(year)]) == year
  {
    assert IntToString(year) == [DigitChar(year)];
    assert PadStart2([DigitChar(year)]) == PadStart2([' ', DigitChar(year)]);
  }

  lemma PaddedTwoDigits(year: int)
    requires 10 <= year <= 99
    ensures PadStart2(IntToString(year)) == [DigitChar(year / 10), DigitChar(year % 10)]
    ensures ReadPaddedYear([DigitChar(year / 10), DigitChar(year % 10)]) == year
  {
    assert NatToString(year / 10) == [DigitChar(year / 10)];
    assert IntToString(year) == [DigitChar(year / 10), DigitChar(year % 10)];
  }

  /** Two options with different years or letters have different names (and so different
      values), as long as the years stay within -9..99. */
  lemma OptionNamesDistinct(y1: int, l1: char, y2: int, l2: char)
    requires -9 <= y1 <= 99 && -9 <= y2 <= 99
    requires y1 != y2 || l1 != l2
    ensures OptionFor(y1, l1).name != OptionFor(y2, l2).name
  {
    var n1, n2 := OptionFor(y1, l1).name, OptionFor(y2, l2).name;
    PaddedYearRoundTrip(y1);
    PaddedYearRoundTrip(y2);
    assert n1[2..4] == PadStart2(IntToString(y1)) && n1[4] == l1;
    assert n2[2..4] == PadStart2(IntToString(y2)) && n2[4] == l2;
  }

  /** The options generated from the year `first` on, up to the first `j` letters of the year
      `year`: the years before `year` with all their letters, then `year` with `j` of them. */
  function Generated(first: int, year: int, j: nat): (r: seq<ClassOption>)
    requires first <= year && j <= |Letters|
    ensures |r| == 4 * (year - first) + j
    decreases year - first, j
  {
    if j > 0 then Generated(first, year, j - 1) + [OptionFor(year, Letters[j - 1])]
    else if year == first then []
    else Generated(first, year - 1, |Letters|)
  }

  /** The options the settings page offers in the calendar year `fullYear`: all letters of the
      years from the earliest to the current one. */
  function ClassOptions(fullYear: int): seq<ClassOption>
    requires 1000 <= fullYear <= 9999
  {
    CurrentYearIsLastTwoDigits(fullYear);
    Generated(EarliestClassYear(fullYear), CurrentYear(fullYear) + 1, 0)
  }

  /** The generation loop: for each year from the earliest to the current one, and within a
      year for each letter in turn, one option is appended. */
  method ClassNameOptions(fullYear: int) returns (options: seq<ClassOption>)
    requires 1000 <= fullYear <= 9999
    ensures options == ClassOptions(fullYear)
  {
    var currentYear := ParseDigits(Substring(NatToString(fullYear), 2, 4));
    var earliestClassYear := currentYear - 3;
    options := [];
    var year := earliestClassYear;
    while year <= currentYear
      invariant earliestClassYear <= year <= currentYear + 1
      invariant options == Generated(earliestClassYear, year, 0)
    {
      var j := 0;
      while j < |Letters|
        invariant 0 <= j <= |Letters|
        invariant options == Generated(earliestClassYear, year, j)
      {
        var className := "TE" + PadStart2(IntToString(year)) + [Letters[j]];
        options := options + [ClassOption(className, Schedule.ToLower(className))];
        j := j + 1;
      }
      year := year + 1;
    }
  }

  /** Sixteen options: position `i` holds year `earliest + i / 4` with letter `i % 4`, so the
      years ascend and the letters run A to D within each year. */
  lemma ClassOptionsOrder(fullYear: int)
    requires 1000 <= fullYear <= 9999
    ensures |ClassOptions(fullYear)| == 16
    ensures forall i | 0 <= i < 16 ::
              ClassOptions(fullYear)[i] == OptionFor(EarliestClassYear(fullYear) + i / 4, Letters[i % 4])
  {
    CurrentYearIsLastTwoDigits(fullYear);
    var e := EarliestClassYear(fullYear);
    forall i | 0 <= i < 16
      ensures ClassOptions(fullYear)[i] == OptionFor(e + i / 4, Letters[i % 4])
    {
      GeneratedAt(e, e + 4, 0, i);
    }
  }

  lemma {:induction false} GeneratedAt(first: int, year: int, j: nat, i: nat)
    requires first <= year && j <= |Letters|
    requires i < 4 * (year - first) + j
    ensures Generated(first, year, j)[i] == OptionFor(first + i / 4, Letters[i % 4])
    decreases year - first, j
  {
    if j == 0 {
      GeneratedAt(first, year - 1, |Letters|, i);
    } else if i < 4 * (year - first) + j - 1 {
      GeneratedAt(first, year, j - 1, i);
    } else {
      assert i / 4 == year - first && i % 4 == j - 1 by {
        assert i == 4 * (year - first) + (j - 1);
      }
    }
  }

  /** All sixteen names, and so all sixteen values, are different. */
  lemma ClassOptionsDistinct(fullYear: int)
    requires 1000 <= fullYear <= 9999
    ensures forall i, j | 0 <= i < j < |ClassOptions(fullYear)| ::
              ClassOptions(fullYear)[i].name != ClassOptions(fullYear)[j].name
  {
    CurrentYearIsLastTwoDigits(fullYear);
    ClassOptionsOrder(fullYear);
    var e := EarliestClassYear(fullYear);
    forall i, j | 0 <= i < j < 16
      ensures ClassOptions(fullYear)[i].name != ClassOptions(fullYear)[j].name
    {
      PositionsDiffer(i, j);
      OptionNamesDistinct(e + i / 4, Letters[i % 4], e + j / 4, Letters[j % 4]);
    }
  }

  /** Two positions differ in their year or in their letter. */
  lemma PositionsDiffer(i: nat, j: nat)
    requires i < j < 16
    ensures i / 4 != j / 4 || Letters[i % 4] != Letters[j % 4]
  {
    assert i == 4 * (i / 4) + i % 4 && j == 4 * (j / 4) + j % 4;
    assert forall a, b | 0 <= a < b < 4 :: Letters[a] != Letters[b];
  }

  /** A name with a two-character year text has five characters. */
  lemma NameOfPaddedYear(year: int, letter: char)
    requires |PadStart2(IntToString(year))| == 2
    ensures var p := PadStart2(IntToString(year));
            OptionFor(year, letter).name == ['T', 'E', p[0], p[1], letter]
  {
  }

  /** Lowercasing a five-character name, character by character. */
  lemma LowerFive(name: string)
    requires |name| == 5
    ensures Schedule.ToLower(name) ==
              [Schedule.LowerChar(name[0]), Schedule.LowerChar(name[1]), Schedule.LowerChar(name[2]),
               Schedule.LowerChar(name[3]), Schedule.LowerChar(name[4])]
  {
    var r := Schedule.ToLower(name);
    assert |r| == 5;
    assert r[0] == Schedule.LowerChar(name[0]) && r[1] == Schedule.LowerChar(name[1]);
    assert r[2] == Schedule.LowerChar(name[2]) && r[3] == Schedule.LowerChar(name[3]);
    assert r[4] == Schedule.LowerChar(name[4]);
  }

  /** The option of a class whose year has two digits: "TE", the digits and the letter, and
      the same in lower case. */
  lemma TwoDigitOption(year: int, letter: char)
    requires 10 <= year <= 99
    ensures OptionFor(year, letter).name == ['T', 'E', DigitChar(year / 10), DigitChar(year % 10), letter]
    ensures OptionFor(year, letter).value ==
              ['t', 'e', DigitChar(year / 10), DigitChar(year % 10), Schedule.LowerChar(letter)]
  {
    PaddedTwoDigits(year);
    NameOfPaddedYear(year, letter);
    LowerFive(OptionFor(year, letter).name);
  }

  /** The first option is the earliest year's A class and the last the current year's D class. */
  lemma FirstAndLastOption(fullYear: int)
    requires 1000 <= fullYear <= 9999
    ensures |ClassOptions(fullYear)| == 16
    ensures ClassOptions(fullYear)[0] == OptionFor(EarliestClassYear(fullYear), 'A')
    ensures ClassOptions(fullYear)[15] == OptionFor(CurrentYear(fullYear), 'D')
  {
    CurrentYearIsLastTwoDigits(fullYear);
    var e := EarliestClassYear(fullYear);
    GeneratedAt(e, e + 4, 0, 0);
    GeneratedAt(e, e + 4, 0, 15);
  }

  /** The options of the classes that started in 2021 and 2024: "TE21A" and "TE24D". */
  lemma Options21And24(e: int)
    requires e == 21
    ensures OptionFor(e, 'A') == ClassOption("TE21A", "te21a")
    ensures OptionFor(e + 3, 'D') == ClassOption("TE24D", "te24d")
  {
    TwoDigitOption(e, 'A');
    assert e / 10 == 2 && e % 10 == 1;
    assert DigitChar(2) == '2' && DigitChar(1) == '1';
    assert OptionFor(e, 'A').name == "TE21A";
    assert Schedule.LowerChar('A') == 'a';
    assert OptionFor(e, 'A').value == "te21a";
    TwoDigitOption(e + 3, 'D');
    assert (e + 3) / 10 == 2 && (e + 3) % 10 == 4;
    assert DigitChar(4) == '4';
    assert OptionFor(e + 3, 'D').name == "TE24D";
    assert Schedule.LowerChar('D') == 'd';
    assert OptionFor(e + 3, 'D').value == "te24d";
  }

  /** In 2024 (and in any year ending in 24) the options run from "TE21A" to "TE24D", with
      values in lower case. */
  lemma Options2024(fullYear: int)
    requires 1000 <= fullYear <= 9999 && fullYear % 100 == 24
    ensures ClassOptions(fullYear)[0] == ClassOption("TE21A", "te21a")
    ensures ClassOptions(fullYear)[15] == ClassOption("TE24D", "te24d")
  {
    CurrentYearIsLastTwoDigits(fullYear);
    FirstAndLastOption(fullYear);
    Options21And24(EarliestClassYear(fullYear));
  }

  /** In 2100 (and in any year ending in 00) the earliest year is negative: the first option
      is "TE-3A". */
  lemma OptionsIn2100(fullYear: int)
    requires 1000 <= fullYear <= 9999 && fullYear % 100 == 0
    ensures EarliestClassYear(fullYear) == -3
    ensures ClassOptions(fullYear)[0].name == "TE-3A"
  {
    CurrentYearIsLastTwoDigits(fullYear);
    FirstAndLastOption(fullYear);
    PaddedNegative(EarliestClassYear(fullYear));
    NameOfPaddedYear(EarliestClassYear(fullYear), 'A');
  }

  /** A one-digit year is padded with a space: in 2105 (and in any year ending in 05) the first
      option is "TE 2A". */
  lemma OptionsIn2105(fullYear: int)
    requires 1000 <= fullYear <= 9999 && fullYear % 100 == 5
    ensures ClassOptions(fullYear)[0].name == "TE 2A"
  {
    CurrentYearIsLastTwoDigits(fullYear);
    FirstAndLastOption(fullYear);
    PaddedOneDigit(EarliestClassYear(fullYear));
    NameOfPaddedYear(EarliestClassYear(fullYear), 'A');
  }
}

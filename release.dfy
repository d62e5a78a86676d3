/**
  The next release tag of the `YY.MM[.N]` scheme (`version_up` in
  scripts/release.py). The clock is not read here: the current year and month
  are parameters, and `YearMonth` formats them the way `strftime("%y.%m")` does.
  Where Python raises, the model returns a `Failure`.
 */
module Release {
  import opened Wrappers
  import opened Strings
  import opened Decimal

  /** Why a tag cannot be processed. */
  datatype VersionError =
    | MissingMonth            // the tag has no second dot-separated part (`parts[1]` raises IndexError)
    | BadMinor(minor: string) // the third part is not a decimal integer (`int(parts[2])` raises ValueError)

  /**
    `strftime("%y.%m")`: the year within its century and the month, each as
    two zero-padded digits, separated by a dot.
   */
  function YearMonth(year: nat, month: nat): (ym: string)
    requires 1 <= month <= 12
    ensures |ym| == 5 && ym[2] == '.'
    ensures AllDigits(ym[..2]) && DigitsValue(ym[..2]) == year % 100
    ensures AllDigits(ym[3..]) && DigitsValue(ym[3..]) == month
  {
    var ym := Pad2(year % 100) + "." + Pad2(month);
    assert ym[..2] == Pad2(year % 100) && ym[3..] == Pad2(month);
    ym
  }

  /** `version_up(latest_tag)` at the given current year and month. */
  function VersionUp(latestTag: string, year: nat, month: nat): (r: Result<string, VersionError>)
    requires 1 <= month <= 12
    ensures r.Success? ==> YearMonth(year, month) <= r.value
  {
    var parts := Split(latestTag, '.');
    if |parts| < 2 then Failure(MissingMonth)
    else
      var latestYearMonth := parts[0] + "." + parts[1];
      var currentYearMonth := YearMonth(year, month);
      if latestYearMonth == currentYearMonth then
        if |parts| == 3 && ParseInt(parts[2]).None? then Failure(BadMinor(parts[2]))
        else
          var newMinor := if |parts| == 3 then ParseInt(parts[2]).value + 1 else 1;
          Success(currentYearMonth + "." + IntToString(newMinor))
      else
        Success(currentYearMonth)
  }

  /** The minor number a tag carries: its third part read as an integer, 0 when there is none. */
  ghost function Minor(tag: string): int {
    var parts := Split(tag, '.');
    if |parts| == 3 then
      match ParseInt(parts[2])
      case Some(minor) => minor
      case None => 0
    else 0
  }

  /** The tags of `count` further runs within one month, each run starting from the previous run's tag. */
  ghost function Releases(latestTag: string, year: nat, month: nat, count: nat): Result<string, VersionError>
    requires 1 <= month <= 12
    decreases count
  {
    if count == 0 then VersionUp(latestTag, year, month)
    else
      match Releases(latestTag, year, month, count - 1)
      case Success(tag) => VersionUp(tag, year, month)
      case Failure(e) => Failure(e)
  }

  /** Two clock readings give the same `YY.MM` exactly when they agree on the year within its century and on the month. */
  lemma YearMonthInjective(year1: nat, month1: nat, year2: nat, month2: nat)
    requires 1 <= month1 <= 12 && 1 <= month2 <= 12
    ensures YearMonth(year1, month1) == YearMonth(year2, month2) <==> year1 % 100 == year2 % 100 && month1 == month2
  {
    var a, b := YearMonth(year1, month1), YearMonth(year2, month2);
    if a == b {
      assert a[..2] == b[..2] && a[3..] == b[3..];
    }
  }

  /** The current `YY.MM` splits into its year and its month, and so does any tag that extends it after a dot. */
  lemma SplitYearMonth(year: nat, month: nat, rest: string)
    requires 1 <= month <= 12
    ensures var ym := YearMonth(year, month);
      && Split(ym, '.') == [ym[..2], ym[3..]]
      && Split(ym + "." + rest, '.') == [ym[..2], ym[3..]] + Split(rest, '.')
  {
    var ym := YearMonth(year, month);
    var yy, mm := ym[..2], ym[3..];
    assert '.' !in yy && '.' !in mm by {
      assert !IsDigit('.');
    }
    assert ym == yy + ['.'] + mm;
    SplitAfterFirst(yy, mm, '.');
    SplitWithoutSep(mm, '.');
    assert ym + "." + rest == yy + ['.'] + (mm + ['.'] + rest);
    SplitAfterFirst(yy, mm + ['.'] + rest, '.');
    SplitAfterFirst(mm, rest, '.');
  }

  /**
    The rebuilt `YY.MM` of a tag with at least two parts equals the current one
    exactly when the tag is the current `YY.MM` or begins with it and a dot.
   */
  lemma PrefixMatches(latestTag: string, year: nat, month: nat)
    requires 1 <= month <= 12
    requires |Split(latestTag, '.')| >= 2
    ensures var parts, ym := Split(latestTag, '.'), YearMonth(year, month);
      parts[0] + "." + parts[1] == ym <==> latestTag == ym || ym + "." <= latestTag
  {
    var parts, ym := Split(latestTag, '.'), YearMonth(year, month);
    if latestTag == ym {
      SplitYearMonth(year, month, "");
    } else if ym + "." <= latestTag {
      var rest := latestTag[|ym| + 1..];
      assert latestTag == ym + "." + rest;
      SplitYearMonth(year, month, rest);
    }
    if parts[0] + "." + parts[1] == ym {
      SplitYearMonth(year, month, "");
      SplitAfterFirst(parts[0], parts[1], '.');
      SplitWithoutSep(parts[1], '.');
      assert parts[0] == ym[..2] && parts[1] == ym[3..];
      assert latestTag == parts[0] + ['.'] + Join(parts[1..], '.');
      if |parts| > 2 {
        assert parts[1..][1..] == parts[2..];
        assert Join(parts[1..], '.') == parts[1] + ['.'] + Join(parts[2..], '.');
        assert latestTag == ym + "." + Join(parts[2..], '.');
        assert ym + "." <= latestTag;
      } else {
        assert Join(parts[1..], '.') == parts[1];
        assert latestTag == ym;
      }
    }
  }

  /** A tag without a dot cannot be processed, the empty tag included; no other tag fails this way. */
  lemma VersionUpMissingMonth(latestTag: string, year: nat, month: nat)
    requires 1 <= month <= 12
    ensures VersionUp(latestTag, year, month) == Failure(MissingMonth) <==> '.' !in latestTag
  {
    SplitHasSeveralParts(latestTag, '.');
  }

  /**
    The result is the bare current `YY.MM`, whatever minor the tag had, exactly
    when the tag has a dot but is neither the current `YY.MM` nor an extension
    of it after a dot.
   */
  lemma VersionUpRollover(latestTag: string, year: nat, month: nat)
    requires 1 <= month <= 12
    ensures var ym := YearMonth(year, month);
      VersionUp(latestTag, year, month) == Success(ym)
      <==> '.' in latestTag && latestTag != ym && !(ym + "." <= latestTag)
  {
    SplitHasSeveralParts(latestTag, '.');
    if '.' in latestTag {
      PrefixMatches(latestTag, year, month);
    }
  }

  /** The bare current `YY.MM` is followed by its first minor release. */
  lemma VersionUpFirstMinor(year: nat, month: nat)
    requires 1 <= month <= 12
    ensures var ym := YearMonth(year, month);
      VersionUp(ym, year, month) == Success(ym + ".1")
  {
    SplitYearMonth(year, month, "");
    var ym := YearMonth(year, month);
    assert IntToString(1) == "1";
    assert ym + ".1" == ym + "." + IntToString(1);
  }

  /**
    A tag of the current month with exactly one more part gets that part plus
    one as its minor, or fails when the part is not a decimal integer.
   */
  lemma VersionUpNextMinor(minor: string, year: nat, month: nat)
    requires 1 <= month <= 12
    requires '.' !in minor
    ensures var ym := YearMonth(year, month);
      && (ParseInt(minor).Some? ==>
           VersionUp(ym + "." + minor, year, month) == Success(ym + "." + IntToString(ParseInt(minor).value + 1)))
      && (ParseInt(minor).None? ==>
           VersionUp(ym + "." + minor, year, month) == Failure(BadMinor(minor)))
  {
    SplitYearMonth(year, month, minor);
    SplitWithoutSep(minor, '.');
  }

  /** A tag of the current month with four or more parts is followed by minor 1, not by an error. */
  lemma VersionUpExtraParts(rest: string, year: nat, month: nat)
    requires 1 <= month <= 12
    requires '.' in rest
    ensures var ym := YearMonth(year, month);
      VersionUp(ym + "." + rest, year, month) == Success(ym + ".1")
  {
    SplitYearMonth(year, month, rest);
    SplitHasSeveralParts(rest, '.');
    var ym := YearMonth(year, month);
    assert IntToString(1) == "1";
    assert ym + ".1" == ym + "." + IntToString(1);
  }

  /**
    Every result starts with the current `YY.MM`: it is that `YY.MM` itself
    (two parts) or that `YY.MM`, a dot and a decimal integer (three parts).
   */
  lemma VersionUpResultShape(latestTag: string, year: nat, month: nat)
    requires 1 <= month <= 12
    ensures var ym, r := YearMonth(year, month), VersionUp(latestTag, year, month);
      r.Success? ==>
        && ym <= r.value
        && |Split(r.value, '.')| == (if r.value == ym then 2 else 3)
        && (r.value == ym || (ParseInt(r.value[|ym| + 1..]).Some? && '.' !in r.value[|ym| + 1..]))
  {
    var ym, r := YearMonth(year, month), VersionUp(latestTag, year, month);
    if r.Success? && r.value != ym {
      var minor := r.value[|ym| + 1..];
      var parts := Split(latestTag, '.');
      var n: int := if |parts| == 3 then ParseInt(parts[2]).value + 1 else 1;
      assert minor == IntToString(n);
      IntToStringRoundTrip(n);
      IntToStringHasNoDot(n);
      assert r.value == ym + "." + minor;
      SplitYearMonth(year, month, minor);
      SplitWithoutSep(minor, '.');
    } else if r.Success? {
      SplitYearMonth(year, month, "");
    }
  }

  /** The minor written after the current `YY.MM` is read back, and the next run adds one to it. */
  lemma CurrentWithMinor(year: nat, month: nat, minor: int)
    requires 1 <= month <= 12
    ensures var ym := YearMonth(year, month);
      && Minor(ym + "." + IntToString(minor)) == minor
      && VersionUp(ym + "." + IntToString(minor), year, month) == Success(ym + "." + IntToString(minor + 1))
  {
    IntToStringRoundTrip(minor);
    IntToStringHasNoDot(minor);
    SplitYearMonth(year, month, IntToString(minor));
    SplitWithoutSep(IntToString(minor), '.');
    VersionUpNextMinor(IntToString(minor), year, month);
  }

  /**
    Feeding a result back in under the same month succeeds and raises the
    minor by exactly one: `YY.MM` is followed by `YY.MM.1`, `YY.MM.N` by `YY.MM.N+1`.
   */
  lemma VersionUpIncrements(latestTag: string, year: nat, month: nat)
    requires 1 <= month <= 12
    ensures var ym, r := YearMonth(year, month), VersionUp(latestTag, year, month);
      r.Success? ==>
        && VersionUp(r.value, year, month) == Success(ym + "." + IntToString(Minor(r.value) + 1))
        && Minor(VersionUp(r.value, year, month).value) == Minor(r.value) + 1
  {
    var ym, r := YearMonth(year, month), VersionUp(latestTag, year, month);
    if r.Success? {
      var parts := Split(latestTag, '.');
      if r.value == ym {
        SplitYearMonth(year, month, "");
        assert Minor(ym) == 0;
        VersionUpFirstMinor(year, month);
        CurrentWithMinor(year, month, 1);
      } else {
        var minor := if |parts| == 3 then ParseInt(parts[2]).value + 1 else 1;
        assert r.value == ym + "." + IntToString(minor);
        CurrentWithMinor(year, month, minor);
        CurrentWithMinor(year, month, minor + 1);
      }
    }
  }

  /**
    After a rollover to the current month, successive runs within that month
    produce `YY.MM`, `YY.MM.1`, `YY.MM.2`, and so on.
   */
  lemma {:induction false} MonthOfReleases(latestTag: string, year: nat, month: nat, count: nat)
    requires 1 <= month <= 12
    requires VersionUp(latestTag, year, month) == Success(YearMonth(year, month))
    ensures var ym := YearMonth(year, month);
      Releases(latestTag, year, month, count) == Success(if count == 0 then ym else ym + "." + IntToString(count))
    decreases count
  {
    var ym := YearMonth(year, month);
    if count == 1 {
      VersionUpFirstMinor(year, month);
      assert IntToString(1) == "1";
      assert ym + ".1" == ym + "." + IntToString(1);
    } else if count > 1 {
      MonthOfReleases(latestTag, year, month, count - 1);
      var previous := ym + "." + IntToString(count - 1);
      IntToStringRoundTrip(count - 1);
      IntToStringHasNoDot(count - 1);
      VersionUpNextMinor(IntToString(count - 1), year, month);
    }
  }

  /**
    A tag whose two or three parts are all non-empty runs of ASCII digits;
    its key orders tags by year, month and minor (0 when there is none).
   */
  ghost predicate NumericTag(tag: string) {
    var parts := Split(tag, '.');
    && (|parts| == 2 || |parts| == 3)
    && (forall i :: 0 <= i < |parts| ==> |parts[i]| >= 1 && AllDigits(parts[i]))
  }

  /** A numeric tag whose year and month are two zero-padded digits each, as `YearMonth` writes them. */
  ghost predicate WellFormedTag(tag: string) {
    && NumericTag(tag)
    && |Split(tag, '.')[0]| == 2
    && |Split(tag, '.')[1]| == 2
  }

  ghost function TagKey(tag: string): (int, int, int)
    requires NumericTag(tag)
  {
    var parts := Split(tag, '.');
    (DigitsValue(parts[0]), DigitsValue(parts[1]), if |parts| == 3 then DigitsValue(parts[2]) else 0)
  }

  /** Strictly earlier in the (year, month, minor) order. */
  ghost predicate KeyBefore(a: (int, int, int), b: (int, int, int)) {
    a.0 < b.0 || (a.0 == b.0 && (a.1 < b.1 || (a.1 == b.1 && a.2 < b.2)))
  }

  /** Two zero-padded two-digit numbers are written alike exactly when they are equal. */
  lemma TwoDigitsInjective(a: string, b: string)
    requires |a| == 2 && AllDigits(a) && |b| == 2 && AllDigits(b)
    ensures a == b <==> DigitsValue(a) == DigitsValue(b)
  {
    assert a[..1][..0] == [] && b[..1][..0] == [];
    assert DigitsValue(a[..1]) == DigitValue(a[0]);
    assert DigitsValue(b[..1]) == DigitValue(b[0]);
    assert DigitsValue(a) == DigitValue(a[0]) * 10 + DigitValue(a[1]);
    assert DigitsValue(b) == DigitValue(b[0]) * 10 + DigitValue(b[1]);
    if DigitsValue(a) == DigitsValue(b) {
      assert DigitValue(a[0]) == DigitValue(b[0]) && DigitValue(a[1]) == DigitValue(b[1]);
      assert a == [a[0], a[1]] && b == [b[0], b[1]];
    }
  }

  /** The bare current `YY.MM` is a well-formed tag with key (year mod 100, month, 0). */
  lemma BareYearMonthKey(year: nat, month: nat)
    requires 1 <= month <= 12
    ensures WellFormedTag(YearMonth(year, month))
    ensures TagKey(YearMonth(year, month)) == (year % 100, month, 0)
  {
    SplitYearMonth(year, month, "");
  }

  /** The current `YY.MM` with a natural minor `k` is a well-formed tag with key (year mod 100, month, k). */
  lemma MinorYearMonthKey(year: nat, month: nat, minor: nat)
    requires 1 <= month <= 12
    ensures var tag := YearMonth(year, month) + "." + IntToString(minor);
      WellFormedTag(tag) && TagKey(tag) == (year % 100, month, minor)
  {
    var ym := YearMonth(year, month);
    IntToStringHasNoDot(minor);
    NatToStringRoundTrip(minor);
    SplitYearMonth(year, month, IntToString(minor));
    SplitWithoutSep(IntToString(minor), '.');
    assert Split(ym + "." + IntToString(minor), '.') == [ym[..2], ym[3..], NatToString(minor)];
  }

  /**
    The result guarantee of the scheme: for a well-formed tag whose `YY.MM` is
    not after the current year within its century and month, the next tag
    exists, is well-formed, and is strictly later in the (year, month, minor) order.
   */
  lemma VersionUpAdvances(latestTag: string, year: nat, month: nat)
    requires 1 <= month <= 12
    requires WellFormedTag(latestTag)
    requires TagKey(latestTag).0 < year % 100 || (TagKey(latestTag).0 == year % 100 && TagKey(latestTag).1 <= month)
    ensures VersionUp(latestTag, year, month).Success?
    ensures WellFormedTag(VersionUp(latestTag, year, month).value)
    ensures KeyBefore(TagKey(latestTag), TagKey(VersionUp(latestTag, year, month).value))
  {
    var parts, ym := Split(latestTag, '.'), YearMonth(year, month);
    var key := TagKey(latestTag);
    TwoDigitsInjective(parts[0], ym[..2]);
    TwoDigitsInjective(parts[1], ym[3..]);
    var prefix := parts[0] + "." + parts[1];
    assert prefix[..2] == parts[0] && prefix[3..] == parts[1];
    if key.0 == year % 100 && key.1 == month {
      assert ym == ym[..2] + "." + ym[3..];
      assert prefix == ym;
      if |parts| == 3 {
        assert parts[2][0] != '-' by { assert IsDigit(parts[2][0]); }
        assert ParseInt(parts[2]) == Some(DigitsValue(parts[2]));
        MinorYearMonthKey(year, month, DigitsValue(parts[2]) + 1);
      } else {
        MinorYearMonthKey(year, month, 1);
      }
    } else {
      assert prefix != ym;
      BareYearMonthKey(year, month);
    }
  }

  /** As written, the guarantee fails at a century boundary: `99.12` in January 2100 is followed by the earlier `00.01`. */
  lemma CenturyWrapGoesBack()
    ensures VersionUp("99.12", 2100, 1) == Success("00.01")
    ensures WellFormedTag("99.12") && WellFormedTag("00.01")
    ensures KeyBefore(TagKey("00.01"), TagKey("99.12"))
  {
    assert YearMonth(2100, 1) == "00.01";
    assert YearMonth(2099, 12) == "99.12";
    BareYearMonthKey(2100, 1);
    BareYearMonthKey(2099, 12);
    VersionUpRollover("99.12", 2100, 1);
    assert "99.12"[2] == '.';
  }

  /** As written, an unpadded tag of the current month is not advanced: `24.6` with the clock at June 2024 is followed by `24.06`, with the same key. */
  lemma UnpaddedNotAdvanced()
    ensures VersionUp("24.6", 2024, 6) == Success("24.06")
    ensures NumericTag("24.6") && NumericTag("24.06")
    ensures TagKey("24.6") == TagKey("24.06")
  {
    assert YearMonth(2024, 6) == "24.06";
    BareYearMonthKey(2024, 6);
    VersionUpRollover("24.6", 2024, 6);
    assert "24.6"[2] == '.';
    assert !("24.06" + "." <= "24.6");
    assert "24.6" == "24" + ['.'] + "6";
    SplitAfterFirst("24", "6", '.');
    SplitWithoutSep("6", '.');
    assert "24" == "24.06"[..2];
    assert DigitsValue("6") == 6 by { assert "6"[..0] == []; }
  }

  /** As written, minors are compared as numbers, not as text: `24.06.10` follows `24.06.9` but sorts before it. */
  lemma MinorNotLexicallyLater()
    ensures VersionUp("24.06.9", 2024, 6) == Success("24.06.10")
    ensures "24.06.10"[..6] == "24.06.9"[..6] && "24.06.10"[6] < "24.06.9"[6]
  {
    var ym := YearMonth(2024, 6);
    assert ym == "24.06";
    CurrentWithMinor(2024, 6, 9);
    assert IntToString(9) == "9";
    assert IntToString(10) == "10";
    assert ym + "." + "9" == "24.06.9";
    assert ym + "." + "10" == "24.06.10";
  }

  /** The examples next to `version_up`, with the clock at June 2024: a stale tag rolls over to the bare month. */
  lemma ExamplesRollover()
    ensures VersionUp("23.02", 2024, 6) == Success("24.06")
    ensures VersionUp("23.02.5", 2024, 6) == Success("24.06")
    ensures VersionUp("ab.cd", 2024, 6) == Success("24.06")
  {
    assert YearMonth(2024, 6) == "24.06";
    VersionUpRollover("23.02", 2024, 6);
    VersionUpRollover("23.02.5", 2024, 6);
    VersionUpRollover("ab.cd", 2024, 6);
    assert "ab.cd"[2] == '.';
  }

  /** The examples next to `version_up`, with the clock at June 2024: a tag of the month gets the next minor. */
  lemma ExamplesSameMonth()
    ensures VersionUp("24.06", 2024, 6) == Success("24.06.1")
    ensures VersionUp("24.06.1", 2024, 6) == Success("24.06.2")
  {
    var ym := YearMonth(2024, 6);
    assert ym == "24.06";
    VersionUpFirstMinor(2024, 6);
    assert ym + ".1" == "24.06.1";
    CurrentWithMinor(2024, 6, 1);
    assert IntToString(1) == "1" && IntToString(2) == "2";
    assert ym + "." + IntToString(2) == "24.06.2";
  }

  /** The prefix test is on text: an unpadded month does not match, and extra parts give minor 1. */
  lemma ExamplesLiteralMinded()
    ensures VersionUp("24.6", 2024, 6) == Success("24.06")
    ensures VersionUp("24.06.1.2", 2024, 6) == Success("24.06.1")
  {
    var ym := YearMonth(2024, 6);
    assert ym == "24.06";
    VersionUpRollover("24.6", 2024, 6);
    assert "24.6"[2] == '.';
    assert !(ym + "." <= "24.6");
    assert ym + "." + "1.2" == "24.06.1.2";
    assert "1.2"[1] == '.';
    VersionUpExtraParts("1.2", 2024, 6);
    assert ym + ".1" == "24.06.1";
  }

  /** An empty tag, and a tag of the month whose minor is not a number, cannot be processed. */
  lemma ExamplesErrors()
    ensures VersionUp("", 2024, 6) == Failure(MissingMonth)
    ensures VersionUp("24.06.x", 2024, 6) == Failure(BadMinor("x"))
  {
    assert YearMonth(2024, 6) == "24.06";
    VersionUpMissingMonth("", 2024, 6);
    assert "24.06.x" == "24.06" + "." + "x";
    assert ParseInt("x") == None;
    VersionUpNextMinor("x", 2024, 6);
  }
}

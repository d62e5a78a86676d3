# Next release tag (`YY.MM[.N]`)

A Dafny model of `version_up` in `scripts/release.py`, the function that
computes the next release tag of a year.month.minor versioning scheme.
Given the latest tag and the current year and month, it splits the tag on
`.`, rebuilds its `YY.MM` from the first two parts and compares that text
with the current `YY.MM` (two zero-padded digits each, as
`strftime("%y.%m")` writes them):

- when they differ, the next tag is the bare current `YY.MM`;
- when they agree, the next tag is the current `YY.MM`, a dot and a minor:
  the third part plus one when the tag has exactly three parts, and `1`
  otherwise.

The model is pure: the clock is replaced by two parameters, `year` and
`month` (`1 <= month <= 12`), and the two exceptions Python raises become
`Failure` results: `MissingMonth` when the tag has no second part
(`parts[1]` raises `IndexError`, the empty tag included) and
`BadMinor(part)` when the third part is not a decimal integer
(`int(parts[2])` raises `ValueError`).

Modules:

- `Wrappers` (`wrappers.dfy`): `Option` and `Result`.
- `Strings` (`strings.dfy`): `Split` and `Join` with the meaning of
  Python's `str.split` for a one-character separator.
- `Decimal` (`decimal.dfy`): `str(int)`, the part of `int(str)` the tags
  use, and two-digit zero padding.
- `Release` (`release.dfy`): `YearMonth`, `VersionUp` and the properties of
  the versioning scheme.

The model follows the code where it is looser than the intended
`YY.MM[.N]` scheme (two zero-padded digits for the year and the month, and
an optional positive minor):

- `version_up` tests only for exactly three parts. So a tag of the current
  month with four or more parts is followed by minor `1`
  (`Release.VersionUpExtraParts`) instead of being rejected.
- The minor is whatever `int` reads, so `24.06.-5` is followed by `24.06.-4`.
- The first two parts are never checked to be numbers. `ab.cd` is followed
  by the bare current `YY.MM`, not by an error (`Release.ExamplesRollover`).
- The `YY.MM` test compares text, so `24.6` does not match a current `24.06`
  (`Release.ExamplesLiteralMinded`).

The scheme also intends the next tag to be later than the latest one. That is
proved for well-formed tags that are not after the current month
(`Release.VersionUpAdvances`). The places where the code as written misses
it are proved as lemmas and listed under "## Left out".

## Model

| member | source | states |
|---|---|---|
| `Strings.Split` | scripts/release.py:15 | `tag.split('.')` is the unique list of at least one dot-free part whose join with `.` is the tag |
| `Strings.SplitJoin` | scripts/release.py:15 | splitting undoes joining dot-free parts, so the parts of a tag are recovered exactly |
| `Strings.SplitHasSeveralParts` | scripts/release.py:15-17 | a tag has a second part exactly when it contains a dot |
| `Decimal.ParseInt` | scripts/release.py:22 | `int(parts[2])` succeeds exactly on an optional `-` followed by one or more ASCII digits, leading zeros and `-0` included; without a `-` the value is non-negative |
| `Decimal.ParseIntLeadingZero` | scripts/release.py:22 | `int` ignores leading zeros, after a `-` too, and reads `-0` as 0; with `Decimal.IntToStringRoundTrip` this fixes the value of every accepted string (`007` is 7, `-007` is -7) |
| `Decimal.DigitsValueLeadingZero` | scripts/release.py:22 | a leading zero does not change the number a run of digits denotes |
| `Decimal.IntToString` | scripts/release.py:25 | `str` of an integer is non-empty, starts with `-` exactly for negatives, and is otherwise ASCII digits without leading zeros (never `-0`), so minor 10 is written `10`, not `010` |
| `Decimal.IntToStringRoundTrip` | scripts/release.py:22-25 | `int(str(i)) == i` for every integer, so a written minor is read back unchanged |
| `Decimal.NatToStringRoundTrip` | scripts/release.py:22-25 | the digits written for a natural number denote that number |
| `Decimal.IntToStringInjective` | scripts/release.py:25 | different minors are written as different text |
| `Decimal.IntToStringHasNoDot` | scripts/release.py:25 | a written minor never adds a dot-separated part |
| `Decimal.Pad2` | scripts/release.py:18 | `%y` / `%m`: exactly two ASCII digits whose value is the number |
| `Release.YearMonth` | scripts/release.py:18 | `%y.%m` is five characters, a dot in the middle, the year within its century before it and the month after it |
| `Release.YearMonthInjective` | scripts/release.py:18-20 | two clock readings give the same `YY.MM` exactly when year mod 100 and month agree |
| `Release.VersionUp` | scripts/release.py:14-27 | every successful result begins with the current `YY.MM` |
| `Release.PrefixMatches` | scripts/release.py:17-20 | the rebuilt `YY.MM` equals the current one exactly when the tag is the current `YY.MM` or begins with it and a dot |
| `Release.VersionUpMissingMonth` | scripts/release.py:15-17 | the tag fails for lack of a second part exactly when it has no dot, the empty tag included |
| `Release.VersionUpRollover` | scripts/release.py:17-20 | the result is the bare current `YY.MM`, any minor dropped, exactly when the tag has a dot and neither is nor extends the current `YY.MM` |
| `Release.VersionUpFirstMinor` | scripts/release.py:20-25 | the bare current `YY.MM` is followed by `YY.MM.1` |
| `Release.VersionUpNextMinor` | scripts/release.py:20-25 | `YY.MM.s` of the current month is followed by `YY.MM.(int(s)+1)`, or fails with `BadMinor(s)` when `s` is not a decimal integer |
| `Release.VersionUpExtraParts` | scripts/release.py:21-25 | a tag of the current month with four or more parts is followed by `YY.MM.1` |
| `Release.VersionUpResultShape` | scripts/release.py:25-27 | a result is the current `YY.MM` (two parts) or that `YY.MM`, a dot and a decimal integer (three parts) |
| `Release.CurrentWithMinor` | scripts/release.py:20-25 | `YY.MM.str(n)` of the current month carries minor `n` and is followed by `YY.MM.str(n+1)` |
| `Release.VersionUpIncrements` | scripts/release.py:20-25 | feeding a result back in under the same month succeeds and raises the minor by exactly one |
| `Release.MonthOfReleases` | scripts/release.py:20-27 | after a rollover, successive runs in one month give `YY.MM`, `YY.MM.1`, `YY.MM.2`, ... |
| `Release.ExamplesRollover` | scripts/release.py:17-20 | in June 2024, `23.02` and `23.02.5` (the examples at lines 29-30) and the non-numeric `ab.cd` are followed by `24.06` |
| `Release.VersionUpAdvances` | scripts/release.py:14-27 | for a tag of two two-digit parts and an optional natural minor whose (YY, MM) is not after (year mod 100, month), the next tag exists, is of the same form, and is strictly later in the (YY, MM, minor) order |
| `Release.CenturyWrapGoesBack` | scripts/release.py:18-27 | as written, `99.12` in January 2100 is followed by `00.01`, which is earlier in the (YY, MM, minor) order |
| `Release.UnpaddedNotAdvanced` | scripts/release.py:17-20 | as written, `24.6` in June 2024 is followed by `24.06`, which has the same (YY, MM, minor) key |
| `Release.MinorNotLexicallyLater` | scripts/release.py:20-25 | as written, `24.06.9` is followed by `24.06.10`, which sorts before it as text |
| `Release.ExamplesSameMonth` | scripts/release.py:31-32 | in June 2024, `24.06` is followed by `24.06.1` and `24.06.1` by `24.06.2` |
| `Release.ExamplesLiteralMinded` | scripts/release.py:17-23 | in June 2024, `24.6` is followed by `24.06` and `24.06.1.2` by `24.06.1` |
| `Release.ExamplesErrors` | scripts/release.py:15-22 | in June 2024, the empty tag fails with `MissingMonth` and `24.06.x` with `BadMinor("x")` |

## Left out

- `run` (scripts/release.py:6-12): runs a shell command through `subprocess`; I/O.
- The module-level driver (scripts/release.py:34-47): lists releases with `gh`, prints, and runs `git tag` and `git push`; I/O and external tools.
- `DRY_RUN` and `YYMM` (scripts/release.py:4, 34-35): a configuration constant and an unused global.
- `datetime.now()` (scripts/release.py:18): the clock is a parameter; `year` is any natural number, where Python's dates run from year 1 to 9999.
- `Release.VersionUp`: the next tag is not always later than the latest one. The (YY, MM, minor) order is kept only for the tags and clocks that `Release.VersionUpAdvances` covers. The year wraps at a century: `99.12` in January 2100 gives `00.01` (`Release.CenturyWrapGoesBack`). An unpadded tag is not advanced: `24.6` in June 2024 gives `24.06` (`Release.UnpaddedNotAdvanced`). Tags do not sort as text: `24.06.9` gives `24.06.10` (`Release.MinorNotLexicallyLater`).
- Python's limit of 4300 digits on `int` from text and `str` of an int (added in 3.11 and in the security releases 3.10.7, 3.9.14, 3.8.14 and 3.7.14) raises `ValueError` beyond that length at lines 22 and 25. The model assumes no such limit and returns `Success` for minors of any length.
- `Decimal.ParseInt`: reads an optional `-` followed by one or more ASCII digits; the whitespace, `+` sign, underscores and non-ASCII digits that Python's `int` also accepts are not modelled, so such a third part gives `BadMinor` here.

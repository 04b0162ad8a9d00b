/** Date input of the `/setbirthday` command: the validating pattern
    `^(0?[1-9]|1[0-2])[/-](0?[1-9]|[12][0-9]|3[01])$`, the separator
    normalisation, and the bot's own rendering of today's date. */
module Dates {
  import opened Text

  predicate IsNonZeroDigit(c: char) {
    '1' <= c <= '9'
  }

  /** The month group `0?[1-9]|1[0-2]`. */
  predicate IsMonthText(t: string) {
    || (|t| == 1 && IsNonZeroDigit(t[0]))
    || (|t| == 2 && t[0] == '0' && IsNonZeroDigit(t[1]))
    || (|t| == 2 && t[0] == '1' && '0' <= t[1] <= '2')
  }

  /** The day group `0?[1-9]|[12][0-9]|3[01]`. */
  predicate IsDayText(t: string) {
    || (|t| == 1 && IsNonZeroDigit(t[0]))
    || (|t| == 2 && t[0] == '0' && IsNonZeroDigit(t[1]))
    || (|t| == 2 && (t[0] == '1' || t[0] == '2') && IsDigit(t[1]))
    || (|t| == 2 && t[0] == '3' && (t[1] == '0' || t[1] == '1'))
  }

  /** The character class `[\/\-]`. */
  predicate IsSeparator(c: char) {
    c == '/' || c == '-'
  }

  /** Python's `$` (without MULTILINE): the end of the string, or just
      before a newline that ends it. */
  predicate IsLineEnd(s: string, j: nat)
    requires j <= |s|
  {
    j == |s| || (j == |s| - 1 && s[j] == '\n')
  }

  /** The day group matches the `n` characters from `k` and `$` holds after it. */
  predicate DayEndsAt(s: string, k: nat, n: nat)
  {
    k + n <= |s| && IsDayText(s[k..k + n]) && IsLineEnd(s, k + n)
  }

  /** A month group of length `m`, a separator, and a day group closing the match. */
  predicate MatchesWithMonth(s: string, m: nat)
  {
    m < |s| && IsMonthText(s[..m]) && IsSeparator(s[m]) && (DayEndsAt(s, m + 1, 1) || DayEndsAt(s, m + 1, 2))
  }

  /** `is_valid_date`: `re.match` of the anchored pattern, trying each
      length the two groups can take. */
  predicate IsValidDate(s: string) {
    MatchesWithMonth(s, 1) || MatchesWithMonth(s, 2)
  }

  /** The language of the pattern, stated independently of how it is
      matched: a month, a separator, a day and an optional final newline. */
  ghost predicate InDateLanguage(s: string) {
    exists i: nat, j: nat ::
      i + 1 <= j <= |s| && IsMonthText(s[..i]) && IsSeparator(s[i]) && IsDayText(s[i + 1..j]) && IsLineEnd(s, j)
  }

  lemma MonthTextLength(t: string)
    requires IsMonthText(t)
    ensures 1 <= |t| <= 2 && AllDigits(t)
    ensures 1 <= ParseDigits(t) <= 12
  {
    TwoDigitValue(t);
  }

  lemma DayTextLength(t: string)
    requires IsDayText(t)
    ensures 1 <= |t| <= 2 && AllDigits(t)
    ensures 1 <= ParseDigits(t) <= 31
  {
    TwoDigitValue(t);
  }

  lemma TwoDigitValue(t: string)
    requires 1 <= |t| <= 2 && AllDigits(t)
    ensures |t| == 1 ==> ParseDigits(t) == DigitValue(t[0])
    ensures |t| == 2 ==> ParseDigits(t) == 10 * DigitValue(t[0]) + DigitValue(t[1])
  {
    assert t[..|t| - 1][..0] == [];
    if |t| == 2 {
      assert t[..1] == [t[0]];
    }
  }

  /** The month group spells exactly the numbers 1 to 12 in one or two
      digits, leading zero allowed. */
  lemma MonthTextIsMonthNumber(t: string)
    ensures IsMonthText(t) <==> 1 <= |t| <= 2 && AllDigits(t) && 1 <= ParseDigits(t) <= 12
  {
    if 1 <= |t| <= 2 && AllDigits(t) {
      TwoDigitValue(t);
    }
  }

  /** The day group spells exactly the numbers 1 to 31 in one or two
      digits, leading zero allowed. */
  lemma DayTextIsDayNumber(t: string)
    ensures IsDayText(t) <==> 1 <= |t| <= 2 && AllDigits(t) && 1 <= ParseDigits(t) <= 31
  {
    if 1 <= |t| <= 2 && AllDigits(t) {
      TwoDigitValue(t);
    }
  }

  /** `is_valid_date` accepts exactly the strings of the pattern's language. */
  lemma ValidDateGrammar(s: string)
    ensures IsValidDate(s) <==> InDateLanguage(s)
  {
    if IsValidDate(s) {
      var i: nat := if MatchesWithMonth(s, 1) then 1 else 2;
      var j: nat := if DayEndsAt(s, i + 1, 1) then i + 2 else i + 3;
      assert i + 1 <= j <= |s| && IsMonthText(s[..i]) && IsSeparator(s[i]) && IsDayText(s[i + 1..j]) && IsLineEnd(s, j);
    }
    if InDateLanguage(s) {
      var i: nat, j: nat :|
        i + 1 <= j <= |s| && IsMonthText(s[..i]) && IsSeparator(s[i]) && IsDayText(s[i + 1..j]) && IsLineEnd(s, j);
      MonthTextLength(s[..i]);
      DayTextLength(s[i + 1..j]);
      assert DayEndsAt(s, i + 1, j - i - 1);
      assert MatchesWithMonth(s, i);
    }
  }

  /** The command's help-text examples and the permissive day check: `12/25` and
      `3-15` are accepted, and so is `2/30` although February has no 30th. */
  lemma ValidationAccepts()
    ensures InDateLanguage("12/25") && InDateLanguage("3-15") && InDateLanguage("2/30")
  {
    assert MatchesWithMonth("12/25", 2) && DayEndsAt("12/25", 3, 2);
    ValidDateGrammar("12/25");
    assert MatchesWithMonth("3-15", 1) && DayEndsAt("3-15", 2, 2);
    ValidDateGrammar("3-15");
    assert MatchesWithMonth("2/30", 1) && DayEndsAt("2/30", 2, 2);
    ValidDateGrammar("2/30");
  }

  /** A leading zero and one trailing newline are accepted too. */
  lemma ValidationAcceptsUnusualSpellings()
    ensures InDateLanguage("03/15") && InDateLanguage("3/5\n")
  {
    assert MatchesWithMonth("03/15", 2) && DayEndsAt("03/15", 3, 2);
    ValidDateGrammar("03/15");
    assert MatchesWithMonth("3/5\n", 1) && DayEndsAt("3/5\n", 2, 1);
    ValidDateGrammar("3/5\n");
  }

  /** `13/01` and `0/5` are refused, and so is a day past 31. */
  lemma ValidationRejectsOutOfRange()
    ensures !InDateLanguage("13/01") && !InDateLanguage("0/5") && !InDateLanguage("3/32")
  {
    ValidDateGrammar("13/01");
    ValidDateGrammar("0/5");
    ValidDateGrammar("3/32");
  }

  /** A second newline, another separator and a third component are refused. */
  lemma ValidationRejectsMalformed()
    ensures !InDateLanguage("3/15\n\n") && !InDateLanguage("3.15") && !InDateLanguage("1/1/1")
  {
    ValidDateGrammar("3/15\n\n");
    ValidDateGrammar("3.15");
    ValidDateGrammar("1/1/1");
  }

  /** Where the separator of a valid date sits: right after the month. */
  function SeparatorIndex(s: string): (k: nat)
    requires IsValidDate(s)
    ensures 1 <= k <= 2 && k < |s|
    ensures IsMonthText(s[..k]) && IsSeparator(s[k])
    ensures forall i :: 0 <= i < |s| && i != k ==> !IsSeparator(s[i])
  {
    if MatchesWithMonth(s, 1) then 1 else 2
  }

  /** Index just past the day: the length, less a trailing newline. */
  function DateEnd(s: string): (j: nat)
    requires IsValidDate(s)
    ensures SeparatorIndex(s) + 1 < j <= |s|
    ensures IsDayText(s[SeparatorIndex(s) + 1..j]) && IsLineEnd(s, j)
  {
    if s[|s| - 1] == '\n' then |s| - 1 else |s|
  }

  function MonthText(s: string): (t: string)
    requires IsValidDate(s)
    ensures IsMonthText(t)
  {
    s[..SeparatorIndex(s)]
  }

  function DayText(s: string): (t: string)
    requires IsValidDate(s)
    ensures IsDayText(t)
  {
    s[SeparatorIndex(s) + 1..DateEnd(s)]
  }

  /** The month number that `int(month)` reads from a valid date. */
  function MonthOf(s: string): (m: nat)
    requires IsValidDate(s)
    ensures 1 <= m <= 12
    ensures ParseInt(MonthText(s)) == Some(m)
  {
    MonthTextLength(MonthText(s));
    ParseDigits(MonthText(s))
  }

  function DayOf(s: string): (d: nat)
    requires IsValidDate(s)
    ensures 1 <= d <= 31
    ensures ParseInt(DayText(s)) == Some(d)
  {
    DayTextLength(DayText(s));
    ParseDigits(DayText(s))
  }

  /** `format_date`: `replace('-', '/')`, so no `-` is left. */
  function FormatDate(s: string): (r: string)
    ensures |r| == |s| && '-' !in r
  {
    if s == [] then [] else [if s[0] == '-' then '/' else s[0]] + FormatDate(s[1..])
  }

  /** Each `-` becomes `/` and every other character is left as it was. */
  lemma {:induction false} FormatDateAt(s: string, i: nat)
    requires i < |s|
    ensures FormatDate(s)[i] == if s[i] == '-' then '/' else s[i]
  {
    if i > 0 {
      FormatDateAt(s[1..], i - 1);
    }
  }

  /** A string without `-` is left as it is, so formatting is idempotent. */
  lemma {:induction false} FormatDateFixesDashFree(s: string)
    requires '-' !in s
    ensures FormatDate(s) == s
  {
    if s != [] {
      assert s[0] != '-' && '-' !in s[1..];
      FormatDateFixesDashFree(s[1..]);
    }
  }

  lemma FormatDateIdempotent(s: string)
    ensures FormatDate(FormatDate(s)) == FormatDate(s)
  {
    FormatDateFixesDashFree(FormatDate(s));
  }

  /** What the store keeps: a valid date that has been through `format_date`. */
  predicate IsStoredDate(s: string) {
    IsValidDate(s) && '-' !in s
  }

  /** Formatting a string whose only possible `-` sits at `k` rewrites that
      one position and copies the rest. */
  lemma {:induction false} FormatAtOnePosition(s: string, k: nat)
    requires k < |s| && '-' !in s[..k] && '-' !in s[k + 1..]
    ensures FormatDate(s) == s[..k] + [if s[k] == '-' then '/' else s[k]] + s[k + 1..]
  {
    if k == 0 {
      FormatDateFixesDashFree(s[1..]);
    } else {
      var t := s[1..];
      assert s[0] == s[..k][0];
      assert t[..k - 1] == s[1..k] && t[k..] == s[k + 1..];
      assert '-' !in t[..k - 1] by {
        assert t[..k - 1] == s[..k][1..];
      }
      FormatAtOnePosition(t, k - 1);
      assert s[..k] == [s[0]] + t[..k - 1];
    }
  }

  /** On a valid date, formatting rewrites the separator to `/` and copies
      the rest, which holds no other `/`. */
  lemma FormatReplacesSeparator(s: string)
    requires IsValidDate(s)
    ensures var k := SeparatorIndex(s);
      && FormatDate(s) == s[..k] + "/" + s[k + 1..]
      && '/' !in s[..k] && '/' !in s[k + 1..]
  {
    var k := SeparatorIndex(s);
    var j := DateEnd(s);
    MonthTextLength(s[..k]);
    DayTextLength(s[k + 1..j]);
    assert '-' !in s[..k] && '/' !in s[..k];
    assert '-' !in s[k + 1..] && '/' !in s[k + 1..] by {
      assert s[k + 1..] == s[k + 1..j] + s[j..];
      assert s[j..] == [] || s[j..] == "\n";
    }
    FormatAtOnePosition(s, k);
  }

  /** Formatting a valid date keeps it valid, with the separator, the month
      text, the day text and the trailing newline, if any, where they were. */
  lemma FormattedStaysValid(s: string)
    requires IsValidDate(s)
    ensures var r := FormatDate(s);
      && IsValidDate(r)
      && SeparatorIndex(r) == SeparatorIndex(s) && DateEnd(r) == DateEnd(s)
      && MonthText(r) == MonthText(s) && DayText(r) == DayText(s)
  {
    var r := FormatDate(s);
    var k := SeparatorIndex(s);
    var j := DateEnd(s);
    FormatReplacesSeparator(s);
    assert r[..k] == s[..k];
    assert r[k + 1..] == s[k + 1..];
    assert r[k + 1..j] == s[k + 1..j] by {
      assert r[k + 1..j] == r[k + 1..][..j - k - 1];
      assert s[k + 1..j] == s[k + 1..][..j - k - 1];
    }
    assert r[|r| - 1] == s[|s| - 1] by {
      assert r[|r| - 1] == r[k + 1..][|r| - k - 2];
    }
    assert IsLineEnd(r, j);
    assert DayEndsAt(r, k + 1, j - k - 1);
    assert MatchesWithMonth(r, k);
    assert SeparatorIndex(r) == k;
    assert DateEnd(r) == j;
  }

  /** On a valid date, formatting replaces the one separator by `/` and
      keeps the date valid, with the same month and day text. */
  lemma FormatValidDate(s: string)
    requires IsValidDate(s)
    ensures var r := FormatDate(s);
      && IsStoredDate(r)
      && SeparatorIndex(r) == SeparatorIndex(s)
      && r == s[..SeparatorIndex(s)] + "/" + s[SeparatorIndex(s) + 1..]
      && Count(r, '/') == 1
      && MonthText(r) == MonthText(s) && DayText(r) == DayText(s)
  {
    var k := SeparatorIndex(s);
    FormatReplacesSeparator(s);
    FormattedStaysValid(s);
    CountAbsent(s[..k], '/');
    CountAbsent(s[k + 1..], '/');
    CountAppend(s[..k] + "/", s[k + 1..], '/');
    CountAppend(s[..k], "/", '/');
  }

  /** `get_today_date`: `f"{month}/{day}"` of the local clock's date, with
      the clock reading passed in. */
  function TodayString(month: nat, day: nat): string
  {
    NatToString(month) + "/" + NatToString(day)
  }

  /** No leading zeros, `/` as separator, no trailing newline: the only
      spelling `get_today_date` produces. */
  predicate IsCanonical(s: string)
    requires IsValidDate(s)
  {
    && s[SeparatorIndex(s)] == '/'
    && MonthText(s)[0] != '0'
    && DayText(s)[0] != '0'
    && DateEnd(s) == |s|
  }

  /** Every real calendar-style date renders to a valid, canonical stored date. */
  lemma TodayStringIsStoredDate(month: nat, day: nat)
    requires 1 <= month <= 12 && 1 <= day <= 31
    ensures var s := TodayString(month, day);
      IsStoredDate(s) && IsCanonical(s) && MonthOf(s) == month && DayOf(s) == day
  {
    var s := TodayString(month, day);
    var m, d := NatToString(month), NatToString(day);
    assert s == m + "/" + d;
    assert s[..|m|] == m && s[|m| + 1..] == d;
    assert |m| == 1 ==> IsNonZeroDigit(m[0]) by {
      if |m| == 1 { ParseNatToString(month); }
    }
    assert |m| == 2 ==> m[0] == '1' && '0' <= m[1] <= '2' by {
      if |m| == 2 {
        ParseNatToString(month);
        assert m[..1] == [m[0]];
      }
    }
    assert |m| <= 2;
    assert DayEndsAt(s, |m| + 1, |d|) by {
      ParseNatToString(day);
      if |d| == 2 { assert d[..1] == [d[0]]; }
      assert |d| <= 2;
    }
    assert MatchesWithMonth(s, |m|);
    assert IsDigit(s[|s| - 1]);
    assert DayText(s) == d;
    ParseNatToString(month);
    ParseNatToString(day);
  }

  /** A valid date equal to some rendering of today is canonical, and names
      the month and day rendered. */
  lemma TodayMatchIsCanonical(s: string, month: nat, day: nat)
    requires IsValidDate(s) && s == TodayString(month, day)
    ensures IsCanonical(s) && MonthOf(s) == month && DayOf(s) == day
  {
    var m, d := NatToString(month), NatToString(day);
    var k := SeparatorIndex(s);
    assert s[|m|] == '/';
    assert s[..|m|] == m;
    assert forall i :: 0 <= i < |m| ==> !IsSeparator(s[i]);
    MonthTextLength(s[..k]);
    assert k == |m|;
    assert s[k + 1..] == d;
    assert DateEnd(s) == |s| by {
      assert IsDigit(s[|s| - 1]);
    }
    assert DayText(s) == d;
    ParseNatToString(month);
    ParseNatToString(day);
  }

  /** A canonical valid date is today's string on its own month and day. */
  lemma CanonicalIsTodayString(s: string)
    requires IsValidDate(s) && IsCanonical(s)
    ensures s == TodayString(MonthOf(s), DayOf(s))
  {
    var k := SeparatorIndex(s);
    var m, d := MonthText(s), DayText(s);
    MonthTextLength(m);
    DayTextLength(d);
    NatToStringParse(m);
    NatToStringParse(d);
    assert s == m + "/" + d;
  }

  /** A date stored with a leading zero in the month or the day (the
      pattern accepts `03/15` and `3/05`) never equals today's string. */
  lemma LeadingZeroNeverToday(s: string, month: nat, day: nat)
    requires IsValidDate(s)
    requires MonthText(s)[0] == '0' || DayText(s)[0] == '0'
    ensures s != TodayString(month, day)
  {
    if s == TodayString(month, day) {
      TodayMatchIsCanonical(s, month, day);
    }
  }
}

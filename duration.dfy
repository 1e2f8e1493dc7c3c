/**
 * The heuristic that decides whether a video is a Short from the ISO 8601
 * duration the YouTube Data API reports (`contentDetails.duration`, such as
 * "PT45S" or "PT2M10S"). It looks only at the text before the first 'M'.
 */
module Duration {
  import opened Wrappers
  import opened PyText

  /** Outcome of the test: `ParseError` is the `ValueError` that `int()` raises. */
  datatype Verdict = Short | NotShort | ParseError

  /** The text handed to `int()`: the part before the first 'M', with every "PT" removed. */
  function MinutesField(duration: string): string
  {
    Replace(BeforeFirst(duration, 'M'), "PT", "")
  }

  /**
   * `'M' not in duration or int(duration.split('M')[0].replace('PT', '')) < 1`,
   * where the `int()` call can raise.
   */
  function Classify(duration: string): Verdict
  {
    if 'M' !in duration then Short
    else
      match ParseInt(MinutesField(duration))
      case None => ParseError
      case Some(minutes) => if minutes < 1 then Short else NotShort
  }

  lemma NoDigitIsM(d: string)
    requires forall i :: 0 <= i < |d| ==> IsDigit(d[i])
    ensures 'M' !in d && 'P' !in d && 'H' !in d
  {
  }

  /** "PT<h>H<s>S": a video of any number of hours and no minutes field is still a Short. */
  lemma HoursWithoutMinutesAreShort(hours: nat, seconds: nat)
    ensures Classify("PT" + Decimal(hours) + "H") == Short
    ensures Classify("PT" + Decimal(hours) + "H" + Decimal(seconds) + "S") == Short
  {
    NoDigitIsM(Decimal(hours));
    NoDigitIsM(Decimal(seconds));
    var a := "PT" + Decimal(hours) + "H";
    var b := a + Decimal(seconds) + "S";
    assert forall i :: 0 <= i < |a| ==> a[i] != 'M' by {
      forall i | 0 <= i < |a| ensures a[i] != 'M' {
        if 2 <= i < |a| - 1 { assert a[i] == Decimal(hours)[i - 2]; }
      }
    }
    assert forall i :: 0 <= i < |b| ==> b[i] != 'M' by {
      forall i | 0 <= i < |b| ensures b[i] != 'M' {
        if i < |a| { assert b[i] == a[i]; }
        else if i < |b| - 1 { assert b[i] == Decimal(seconds)[i - |a|]; }
      }
    }
  }

  /** The `int()` argument for "PT<field>M<rest>" is `field` when `field` holds no 'M' and no 'P'. */
  lemma {:induction false} MinutesFieldOf(field: string, rest: string)
    requires 'M' !in field && 'P' !in field
    ensures MinutesField("PT" + field + "M" + rest) == field
  {
    var prefix := "PT" + field;
    assert 'M' !in prefix by {
      forall i | 0 <= i < |prefix| ensures prefix[i] != 'M' {
        if 2 <= i { assert prefix[i] == field[i - 2]; }
      }
    }
    assert "PT" + field + "M" + rest == prefix + ['M'] + rest;
    BeforeFirstAt(prefix, 'M', rest);
    assert prefix[2..] == field;
  }

  /** "PT<m>M...": with minutes spelled as digits, the video is a Short exactly when there are no whole minutes. */
  lemma MinutesDecide(minutes: nat, rest: string)
    ensures Classify("PT" + Decimal(minutes) + "M" + rest) == (if minutes < 1 then Short else NotShort)
  {
    NoDigitIsM(Decimal(minutes));
    FieldDecides(Decimal(minutes), rest);
    ParseIntDecimal(minutes);
  }

  /**
   * "PT<h>H<m>M...": an hour field before the minutes makes `int()` raise, so
   * every video of an hour or more with a minutes field is a parse error.
   */
  lemma HoursAndMinutesFail(hours: nat, minutes: nat, rest: string)
    ensures Classify("PT" + Decimal(hours) + "H" + Decimal(minutes) + "M" + rest) == ParseError
  {
    var h, m := Decimal(hours), Decimal(minutes);
    var field := h + "H" + m;
    HourFieldChars(h, m);
    ParseIntRejects(field, 'H');
    FieldDecides(field, rest);
    Assoc("PT", h + "H", m);
    Assoc("PT", h, "H");
  }

  /** "PT<field>M<rest>" is decided by `int(field)` alone. */
  lemma FieldDecides(field: string, rest: string)
    requires 'M' !in field && 'P' !in field
    ensures Classify("PT" + field + "M" + rest) ==
      match ParseInt(field)
      case None => ParseError
      case Some(minutes) => if minutes < 1 then Short else NotShort
  {
    var duration := "PT" + field + "M" + rest;
    assert duration[2 + |field|] == 'M';
    MinutesFieldOf(field, rest);
  }

  lemma HourFieldChars(h: string, m: string)
    requires forall i :: 0 <= i < |h| ==> IsDigit(h[i])
    requires forall i :: 0 <= i < |m| ==> IsDigit(m[i])
    ensures 'M' !in h + "H" + m && 'P' !in h + "H" + m && 'H' in h + "H" + m
  {
    var field := h + "H" + m;
    forall i | 0 <= i < |field| ensures field[i] != 'M' && field[i] != 'P' {
      if i < |h| { assert field[i] == h[i]; }
      else if |h| < i { assert field[i] == m[i - 1 - |h|]; }
    }
    assert field[|h|] == 'H';
  }

  /** Durations the heuristic calls Short. */
  lemma ShortExamples()
    ensures Classify("") == Short
    ensures Classify("PT45S") == Short
    ensures Classify("PT1H") == Short
    ensures Classify("PT0M30S") == Short
  {
    assert Decimal(1) == "1";
    HoursWithoutMinutesAreShort(1, 0);
    assert Decimal(0) == "0";
    MinutesDecide(0, "30S");
    assert "PT0M30S" == "PT" + Decimal(0) + "M" + "30S";
  }

  /** Durations of a minute or more without an hour field. */
  lemma NotShortExamples()
    ensures Classify("PT1M") == NotShort
    ensures Classify("PT2M10S") == NotShort
  {
    OneMinute();
    TwoMinutes();
  }

  lemma OneMinute()
    ensures Classify("PT1M") == NotShort
  {
    assert Decimal(1) == "1";
    MinutesDecide(1, "");
    assert "PT1M" == "PT" + Decimal(1) + "M" + "";
  }

  lemma TwoMinutes()
    ensures Classify("PT2M10S") == NotShort
  {
    assert Decimal(2) == "2";
    MinutesDecide(2, "10S");
    assert "PT2M10S" == "PT" + Decimal(2) + "M" + "10S";
  }

  /** An hour and a half: `int("1H30")` raises. */
  lemma ParseErrorExample()
    ensures Classify("PT1H30M") == ParseError
  {
    assert Decimal(1) == "1";
    assert Decimal(30) == "30";
    HoursAndMinutesFail(1, 30, "");
    assert "PT1H30M" == "PT" + Decimal(1) + "H" + Decimal(30) + "M" + "";
  }
}

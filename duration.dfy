/**
 * `duration(text)`: turns the duration phrase typed on the add form into
 * an absolute expiration time. The clock reading `int(time.time())` is the
 * parameter `now`.
 */
module Duration {
  import opened Wrappers
  import opened Text
  import opened Decimal

  /** `int('')` raises ValueError when a unit keyword is present but the text holds no digit. */
  datatype DurationError = NoDigits

  const HourSeconds: int := 3600
  const DaySeconds: int := 86400
  const WeekSeconds: int := 604800

  /** `re.sub(r'[^0-9]+', '', text)`: the ASCII digits of the text, in order. */
  function DigitsOf(text: string): (r: string)
    ensures AllDigits(r)
    ensures |r| <= |text|
  {
    if text == [] then []
    else if IsDigit(text[0]) then [text[0]] + DigitsOf(text[1..])
    else DigitsOf(text[1..])
  }

  /** A character survives the extraction iff it is a digit of the text. */
  lemma {:induction false} DigitsOfMembers(text: string)
    ensures forall c :: c in DigitsOf(text) <==> c in text && IsDigit(c)
  {
    if text != [] {
      DigitsOfMembers(text[1..]);
      assert text == [text[0]] + text[1..];
    }
  }

  /** Removing the non-digits works character by character. */
  lemma {:induction false} DigitsOfConcat(a: string, b: string)
    ensures DigitsOf(a + b) == DigitsOf(a) + DigitsOf(b)
  {
    if a == [] {
      assert a + b == b;
    } else {
      assert (a + b)[0] == a[0] && (a + b)[1..] == a[1..] + b;
      DigitsOfConcat(a[1..], b);
    }
  }

  /** A digit string is its own digit extraction. */
  lemma {:induction false} DigitsOfDigits(s: string)
    requires AllDigits(s)
    ensures DigitsOf(s) == s
  {
    if s != [] {
      DigitsOfDigits(s[1..]);
    }
  }

  ghost predicate MentionsAt(text: string, word: string, i: int)
  {
    0 <= i && i + |word| <= |text| && EqualIgnoringCase(text[i..i + |word|], word)
  }

  /** `text` holds `word` somewhere, up to the case of ASCII letters. */
  ghost predicate Mentions(text: string, word: string)
  {
    exists i :: MentionsAt(text, word, i)
  }

  /** `word in text.lower()` is the case-insensitive search for a lower-case word. */
  lemma ContainsLowerMentions(text: string, word: string)
    requires forall i :: 0 <= i < |word| ==> !IsUpper(word[i])
    ensures Contains(Lower(text), word) <==> Mentions(text, word)
  {
    var low := Lower(text);
    forall i ensures OccursAt(low, word, i) <==> MentionsAt(text, word, i)
    {
      if 0 <= i && i + |word| <= |text| {
        assert low[i..i + |word|] == Lower(text[i..i + |word|]);
        LowerEqualsWord(text[i..i + |word|], word);
      }
    }
  }

  /** `unit * int(digits) + now`, or the ValueError of `int('')`. */
  function Scaled(unit: int, text: string, now: int): (r: Result<int, DurationError>)
    ensures r.Err? <==> DigitsOf(text) == []
    ensures r.Ok? ==> r.value == now + unit * Value(DigitsOf(text))
  {
    match ParseDigits(DigitsOf(text))
    case None => Err(NoDigits)
    case Some(n) => Ok(unit * n + now)
  }

  /**
   * `forever` in any letter case gives 0 ("never expires"); otherwise the
   * first keyword found among hour, day and week scales the number formed
   * by the text's digits; anything else gives `now`.
   */
  function Duration(text: string, now: int): (r: Result<int, DurationError>)
    ensures r.Ok? ==> r.value == 0 || r.value >= now
    ensures r.Err? ==> DigitsOf(text) == []
  {
    var lower := Lower(text);
    if lower == "forever" then Ok(0)
    else if Contains(lower, "hour") then Scaled(HourSeconds, text, now)
    else if Contains(lower, "day") then Scaled(DaySeconds, text, now)
    else if Contains(lower, "week") then Scaled(WeekSeconds, text, now)
    else Ok(now)
  }

  /** The seconds per unit the phrase names, if it names one (hour before day before week). */
  ghost function UnitOf(text: string): Option<int>
  {
    if Mentions(text, "hour") then Some(HourSeconds)
    else if Mentions(text, "day") then Some(DaySeconds)
    else if Mentions(text, "week") then Some(WeekSeconds)
    else None
  }

  /** What `duration` returns, stated with case-insensitive word search. */
  lemma DurationMeaning(text: string, now: int)
    ensures EqualIgnoringCase(text, "forever") ==> Duration(text, now) == Ok(0)
    ensures !EqualIgnoringCase(text, "forever") && UnitOf(text).None? ==> Duration(text, now) == Ok(now)
    ensures !EqualIgnoringCase(text, "forever") && UnitOf(text).Some? ==>
      Duration(text, now) == (if DigitsOf(text) == [] then Err(NoDigits)
                              else Ok(now + UnitOf(text).value * Value(DigitsOf(text))))
  {
    LowerEqualsWord(text, "forever");
    if !EqualIgnoringCase(text, "forever") {
      ContainsLowerMentions(text, "hour");
      if !Mentions(text, "hour") {
        ContainsLowerMentions(text, "day");
        if !Mentions(text, "day") {
          ContainsLowerMentions(text, "week");
        }
      }
    }
  }

  /** A text in which the word's first letter never starts a long enough slice does not contain the word. */
  lemma NotContains(s: string, pat: string)
    requires |pat| > 0
    requires forall i :: 0 <= i && i + |pat| <= |s| ==> s[i] != pat[0]
    ensures !Contains(s, pat)
  {
    forall i ensures !OccursAt(s, pat, i) {
      if 0 <= i && i + |pat| <= |s| {
        assert s[i..i + |pat|][0] == s[i];
      }
    }
  }

  /** `forever` in any letter case means "never expires". */
  lemma DurationForeverSample(now: int)
    ensures Duration("forever", now) == Ok(0)
    ensures Duration("Forever", now) == Ok(0)
    ensures Duration("FOREVER", now) == Ok(0)
  {
    LowerEqualsWord("Forever", "forever");
    LowerEqualsWord("FOREVER", "forever");
  }

  /** `3 hours` is three hours from now. */
  lemma DurationHoursSample(now: int)
    ensures Duration("3 hours", now) == Ok(now + 10800)
  {
    var low := Lower("3 hours");
    assert low == "3 hours";
    assert low[0] == '3';
    assert OccursAt(low, "hour", 2);
    assert DigitsOf("3 hours") == "3";
    assert Value("3") == 3;
  }

  /** `2 days` is two days from now. */
  lemma DurationDaysSample(now: int)
    ensures Duration("2 days", now) == Ok(now + 172800)
  {
    var low := Lower("2 days");
    assert low == "2 days";
    assert OccursAt(low, "day", 2);
    NotContains(low, "hour");
    assert DigitsOf("2 days") == "2";
    assert Value("2") == 2;
  }

  /** `1 week` is one week from now. */
  lemma DurationWeekSample(now: int)
    ensures Duration("1 week", now) == Ok(now + 604800)
  {
    var low := Lower("1 week");
    assert low == "1 week";
    assert OccursAt(low, "week", 2);
    NotContains(low, "hour");
    NotContains(low, "day");
    assert DigitsOf("1 week") == "1";
    assert Value("1") == 1;
  }

  /** Unrecognised text expires at once. */
  lemma DurationUnrecognisedSample(now: int)
    ensures Duration("gibberish", now) == Ok(now)
  {
    var low := Lower("gibberish");
    assert low == "gibberish";
    assert low != "forever" by { assert |low| != |"forever"|; }
    assert forall i :: 0 <= i < 9 ==> low[i] != 'w' && low[i] != 'd';
    assert forall i :: 0 <= i < 6 ==> low[i] != 'h';
    NotContains(low, "hour");
    NotContains(low, "day");
    NotContains(low, "week");
  }

  /** A unit without a number raises, as `int('')` does. */
  lemma DurationNoDigitsSample(now: int)
    ensures Duration("hours", now) == Err(NoDigits)
  {
    assert Lower("hours") == "hours";
    assert OccursAt("hours", "hour", 0);
    assert DigitsOf("hours") == "";
  }
}

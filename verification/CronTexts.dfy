/** What some concrete cron texts mean. */
module CronTexts {
  import opened Prelude
  import opened Text
  import opened Calendar
  import opened CronSchedule
  import opened CronWindow
  import opened CronSyntax

  lemma WrappedValues()
    ensures 3 in LoopValues(5, 5, MAX_INT) && 1 in LoopValues(5, 5, MAX_INT)
  {
    var a := Wrap(5 + MAX_INT);
    LoopStep(5, 5, MAX_INT);
    LoopStep(a, 5, MAX_INT);
    var b := Wrap(a + MAX_INT);
    assert b == 3;
    LoopStep(b, 5, MAX_INT);
    var c := Wrap(b + MAX_INT);
    LoopStep(c, 5, MAX_INT);
    assert Wrap(c + MAX_INT) == 1;
    assert 1 in LoopValues(1, 5, MAX_INT);
    assert 1 in LoopValues(c, 5, MAX_INT);
    assert 1 in LoopValues(b, 5, MAX_INT);
    assert 1 in LoopValues(a, 5, MAX_INT);
  }

  lemma SinglePart(raw: string, it: Item, lo: int, hi: int)
    requires ',' !in raw && ParseItem(raw, lo, hi) == Some(it)
    ensures Split(raw, ',') == [raw] && ItemsOf([raw], lo, hi) == Some([it])
  {
    assert [raw][..0] == [] && [] + [it] == [it];
  }

  lemma SingleValues(it: Item, weekday: bool)
    requires LoopItem(it)
    ensures FieldValues([it], weekday) == set v | v in LoopValues(it.start, it.end, it.step) :: Normalized(weekday, v)
  {
    assert [it][..0] == [];
  }

  lemma SingleItem(raw: string, it: Item, lo: int, hi: int, weekday: bool)
    requires 0 <= lo <= hi <= 59 && ',' !in raw && ParseItem(raw, lo, hi) == Some(it)
    ensures LoopItem(it)
    ensures FieldOf(raw, lo, hi, weekday)
         == Some(Field(set v | v in LoopValues(it.start, it.end, it.step) :: Normalized(weekday, v), raw == "*"))
  {
    ItemExactlyWhen(it, lo, hi);
    SinglePart(raw, it, lo, hi);
    SingleValues(it, weekday);
    FieldHoldsStart([it], lo, hi, weekday);
  }

  /** A star stands for every value of its field's range. */
  lemma StarField(lo: int, hi: int, weekday: bool)
    requires 0 <= lo <= hi <= 59
    ensures FieldOf("*", lo, hi, weekday).Some? && FieldOf("*", lo, hi, weekday).value.all
    ensures forall v :: lo <= v <= hi ==> Normalized(weekday, v) in FieldOf("*", lo, hi, weekday).value.values
  {
    SingleItem("*", Item(lo, hi, 1), lo, hi, weekday);
    forall v | lo <= v <= hi ensures v in LoopValues(lo, hi, 1) {
      LoopValuesExact(lo, hi, 1, v);
      assert KSteps(lo, 1, v - lo, v);
    }
  }

  /** A number stands for itself. */
  lemma NumberField(raw: string, v: int, lo: int, hi: int)
    requires 0 <= lo <= v <= hi <= 59 && Atoi(raw) == Some(v)
    requires ',' !in raw && '/' !in raw && '-' !in raw && raw != "*"
    ensures FieldOf(raw, lo, hi, false) == Some(Field({v}, false))
  {
    SingleItem(raw, Item(v, v, 1), lo, hi, false);
    assert LoopValues(v + 1, v, 1) == {};
    assert LoopValues(v, v, 1) == {v};
    assert (set u | u in LoopValues(v, v, 1) :: Normalized(false, u)) == {v};
  }

  lemma NextDigit(front: string, c: char, s: string)
    requires AllDigits(front) && '0' <= c <= '9' && s == front + [c]
    ensures AllDigits(s) && DecimalValue(s) == 10 * DecimalValue(front) + (c as int - '0' as int)
  {
    assert s[..|s| - 1] == front && s[|s| - 1] == c;
  }

  lemma SevenDigits()
    ensures AllDigits("9223372") && DecimalValue("9223372") == 9223372
  {
    NextDigit("", '9', "9");
    NextDigit("9", '2', "92");
    NextDigit("92", '2', "922");
    NextDigit("922", '3', "9223");
    NextDigit("9223", '3', "92233");
    NextDigit("92233", '7', "922337");
    NextDigit("922337", '2', "9223372");
  }

  lemma FourteenDigits()
    ensures AllDigits("92233720368547") && DecimalValue("92233720368547") == 92233720368547
  {
    SevenDigits();
    NextDigit("9223372", '0', "92233720");
    NextDigit("92233720", '3', "922337203");
    NextDigit("922337203", '6', "9223372036");
    NextDigit("9223372036", '8', "92233720368");
    NextDigit("92233720368", '5', "922337203685");
    NextDigit("922337203685", '4', "9223372036854");
    NextDigit("9223372036854", '7', "92233720368547");
  }

  lemma NineteenDigits()
    ensures AllDigits("9223372036854775807") && DecimalValue("9223372036854775807") == 9223372036854775807
  {
    FourteenDigits();
    NextDigit("92233720368547", '7', "922337203685477");
    NextDigit("922337203685477", '5', "9223372036854775");
    NextDigit("9223372036854775", '8', "92233720368547758");
    NextDigit("92233720368547758", '0', "922337203685477580");
    NextDigit("922337203685477580", '7', "9223372036854775807");
  }

  lemma LargestNumeral()
    ensures Numeral("9223372036854775807", MAX_INT)
  {
    NineteenDigits();
  }

  lemma WrapField(raw: string)
    requires ',' !in raw && ParseItem(raw, 0, 59) == Some(Item(5, 5, MAX_INT))
    ensures var field := FieldOf(raw, 0, 59, false);
            && field.Some? && 3 in field.value.values && 1 in field.value.values
            && !DenotedByText(raw, 0, 59, false, 3) && !DenotedByText(raw, 0, 59, false, 1)
  {
    var it := Item(5, 5, MAX_INT);
    SingleItem(raw, it, 0, 59, false);
    WrappedValues();
    NotDenoted(raw, it, 3);
    NotDenoted(raw, it, 1);
  }

  lemma WrapText(range: string, step: string)
    requires range == "5" && step == "9223372036854775807"
    ensures range + "/" + step == "5/9223372036854775807"
  {
  }

  /** The field "5/9223372036854775807" of a minute also holds 3 and 1, which its text does not stand for. */
  lemma WrapWitness()
    ensures var raw := "5/9223372036854775807";
            var field := FieldOf(raw, 0, 59, false);
            && field.Some? && 3 in field.value.values && 1 in field.value.values
            && !DenotedByText(raw, 0, 59, false, 3) && !DenotedByText(raw, 0, 59, false, 1)
  {
    WrapItem("5", "9223372036854775807");
    WrapText("5", "9223372036854775807");
    WrapField("5/9223372036854775807");
  }

  lemma WrapItem(range: string, step: string)
    requires range == "5" && step == "9223372036854775807"
    ensures ParseItem(range + "/" + step, 0, 59) == Some(Item(5, 5, MAX_INT)) && ',' !in range + "/" + step
  {
    LargestNumeral();
    NextDigit("", '5', range);
    assert Numeral(range, 5);
    assert RangeText(range, 0, 59, 5, 5);
    RangeHasNo(range, 0, 59, 5, 5, ',');
    NumeralHasNo(step, MAX_INT, ',');
    SteppedItemFromGrammar(range, step, 0, 59, Item(5, 5, MAX_INT));
  }

  /** A value before the start of the only item is not denoted. */
  lemma NotDenoted(raw: string, it: Item, v: int)
    requires ',' !in raw && ParseItem(raw, 0, 59) == Some(it) && v < it.start
    ensures !DenotedByText(raw, 0, 59, false, v)
  {
    assert Split(raw, ',') == [raw];
    if part, i, u :| ItemValue(raw, part, 0, 59, i, u) && v == u {
      ItemFromGrammar(part, 0, 59, i);
      var k :| KSteps(i.start, i.step, k, u);
      OneStepMore(i.start, i.step, k, u);
    }
  }

  // "* * * * *"

  lemma StarTokens()
    ensures Fields("* * * * *") == ["*", "*", "*", "*", "*"]
  {
    var tokens := ["*", "*", "*", "*", "*"];
    FieldsOfTokens(tokens);
    assert tokens[1..] == ["*", "*", "*", "*"] && tokens[1..][1..] == ["*", "*", "*"];
    assert tokens[1..][1..][1..] == ["*", "*"] && tokens[1..][1..][1..][1..] == ["*"];
    assert Join(["*", "*"], ' ') == "* *";
    assert Join(["*", "*", "*"], ' ') == "* * *";
    assert Join(["*", "*", "*", "*"], ' ') == "* * * *";
    assert Join(tokens, ' ') == "* * * * *";
  }

  ghost predicate Always(s: Schedule) {
    && (forall v :: 0 <= v <= 59 ==> v in s.minute.values)
    && (forall v :: 0 <= v <= 23 ==> v in s.hour.values)
    && (forall v :: 1 <= v <= 12 ==> v in s.month.values)
    && s.dom.all && s.dow.all
  }

  lemma PlainStar(lo: int, hi: int, f: Option<Field>)
    requires 0 <= lo <= hi <= 59 && f == FieldOf("*", lo, hi, false)
    ensures f.Some? && f.value.all && forall v :: lo <= v <= hi ==> v in f.value.values
  {
    StarField(lo, hi, false);
    forall v | lo <= v <= hi ensures v in f.value.values {
      assert Normalized(false, v) == v;
    }
  }

  lemma StarsAlways(expr: string, star: string)
    requires star == "*" && Fields(expr) == [star, star, star, star, star]
    ensures ScheduleOf(expr).Some? && Always(ScheduleOf(expr).value)
  {
    PlainStar(0, 59, FieldOf(star, 0, 59, false));
    PlainStar(0, 23, FieldOf(star, 0, 23, false));
    PlainStar(1, 31, FieldOf(star, 1, 31, false));
    PlainStar(1, 12, FieldOf(star, 1, 12, false));
    StarField(0, 7, true);
  }

  lemma StarText()
    ensures ScheduleOf("* * * * *").Some? && Always(ScheduleOf("* * * * *").value)
  {
    StarTokens();
    StarsAlways("* * * * *", "*");
  }

  lemma NextOfAlways(s: Schedule, t: Time)
    requires Always(s)
    ensures NextMinute(s, t) == Some(StartMinute(t))
  {
    var start := StartMinute(t);
    assert Matches(s, start);
    DeadlineDate(start);
    EarlierYear(start, FiveYearsLater(start));
    FirstMatchUnique(s, start, FiveYearsLater(start), start);
  }

  /** "* * * * *" runs at the next whole minute. */
  lemma EveryMinute(t: Time)
    ensures NextRun("* * * * *", t) == Some(StartMinute(t) * MINUTE)
  {
    StarText();
    NextOfAlways(ScheduleOf("* * * * *").value, t);
  }

  // "0 0 29 2 *"

  lemma LeapTokens()
    ensures Fields("0 0 29 2 *") == ["0", "0", "29", "2", "*"]
  {
    var tokens := ["0", "0", "29", "2", "*"];
    FieldsOfTokens(tokens);
    assert tokens[1..] == ["0", "29", "2", "*"] && tokens[1..][1..] == ["29", "2", "*"];
    assert tokens[1..][1..][1..] == ["2", "*"] && tokens[1..][1..][1..][1..] == ["*"];
    assert Join(["2", "*"], ' ') == "2 *";
    assert Join(["29", "2", "*"], ' ') == "29 2 *";
    assert Join(["0", "29", "2", "*"], ' ') == "0 29 2 *";
    assert Join(tokens, ' ') == "0 0 29 2 *";
  }

  lemma SmallNumerals()
    ensures Atoi("0") == Some(0) && Atoi("2") == Some(2) && Atoi("29") == Some(29)
  {
    NextDigit("", '0', "0");
    NextDigit("", '2', "2");
    NextDigit("2", '9', "29");
  }

  lemma LeapText()
    ensures ScheduleOf("0 0 29 2 *").Some? && LeapMidnight(ScheduleOf("0 0 29 2 *").value)
  {
    LeapTokens();
    SmallNumerals();
    NumberField("0", 0, 0, 59);
    NumberField("0", 0, 0, 23);
    NumberField("29", 29, 1, 31);
    NumberField("2", 2, 1, 12);
    StarField(0, 7, true);
    ParsedIsWellFormed("0 0 29 2 *");
  }

  /** The text "0 0 29 2 *", accepted on 1 January four years before a common century, runs next on the 29 February of
      that year, and from that run on it has no next run until 1 March three years later. */
  lemma LeapDayTextGoesSilent(c: int, a: Time, b: Time)
    requires CommonCentury(c) && DateOf(DayOfMinute(StartMinute(a))) == Date(c - 4, 1, 1)
    requires LeapDayMinute(c - 4, 0, 0) * MINUTE <= b && StartMinute(b) < FirstOfMarch(c - 1)
    ensures NextRun("0 0 29 2 *", a) == Some(LeapDayMinute(c - 4, 0, 0) * MINUTE)
    ensures NextRun("0 0 29 2 *", b).None?
  {
    LeapText();
    LastLeapMidnight(ScheduleOf("0 0 29 2 *").value, c, a);
    LeapMidnightGoesSilent(ScheduleOf("0 0 29 2 *").value, c, b);
  }
}

/** The five-field cron syntax: lists of ranges with steps, parsed with 64-bit arithmetic. */
module CronSyntax {
  import opened Prelude
  import opened Text
  import opened CronSchedule
  import CronWindow

  /** One list item: the values start, start + step, ... up to end. */
  datatype Item = Item(start: int, end: int, step: int)

  // The parser's pure parts.

  function ParseBound(raw: string, lo: int, hi: int): Option<int> {
    match Atoi(raw)
    case None => None
    case Some(v) => if v < lo || v > hi then None else Some(v)
  }

  function ParseRange(raw: string, lo: int, hi: int): Option<(int, int)> {
    if raw == "*" then Some((lo, hi))
    else if '-' in raw then
      var pieces := Split(raw, '-');
      if |pieces| != 2 || pieces[0] == "" || pieces[1] == "" then None
      else
        match ParseBound(pieces[0], lo, hi)
        case None => None
        case Some(start) =>
          match ParseBound(pieces[1], lo, hi)
          case None => None
          case Some(end) => if end < start then None else Some((start, end))
    else
      match ParseBound(raw, lo, hi)
      case None => None
      case Some(v) => Some((v, v))
  }

  function ParseStep(part: string): Option<(string, int)> {
    if '/' in part then
      var pieces := Split(part, '/');
      if |pieces| != 2 || pieces[0] == "" || pieces[1] == "" then None
      else
        match Atoi(pieces[1])
        case None => None
        case Some(step) => if step <= 0 then None else Some((pieces[0], step))
    else Some((part, 1))
  }

  function ParseItem(part: string, lo: int, hi: int): (r: Option<Item>)
    ensures lo <= hi && r.Some? ==> ItemInRange(r.value, lo, hi)
  {
    if part == "" then None
    else
      match ParseStep(part)
      case None => None
      case Some((range, step)) =>
        match ParseRange(range, lo, hi)
        case None => None
        case Some((start, end)) => Some(Item(start, end, step))
  }

  predicate ItemInRange(it: Item, lo: int, hi: int) {
    lo <= it.start <= it.end <= hi && 1 <= it.step <= MAX_INT
  }

  // A declarative grammar for the same items.

  ghost predicate Numeral(s: string, v: int) {
    v <= MAX_INT && exists digits | digits != "" && AllDigits(digits) :: (s == digits || s == "+" + digits)
                      && v == DecimalValue(digits)
  }

  ghost predicate Bound(s: string, v: int, lo: int, hi: int) {
    Numeral(s, v) && lo <= v <= hi
  }

  ghost predicate RangeText(s: string, lo: int, hi: int, a: int, b: int) {
    || (s == "*" && a == lo && b == hi)
    || (Bound(s, a, lo, hi) && a == b)
    || (a <= b && exists x, y :: s == x + "-" + y && Bound(x, a, lo, hi) && Bound(y, b, lo, hi))
  }

  ghost predicate ItemText(s: string, lo: int, hi: int, it: Item) {
    || (RangeText(s, lo, hi, it.start, it.end) && it.step == 1)
    || (it.step >= 1 && exists range, step :: s == range + "/" + step && RangeText(range, lo, hi, it.start, it.end)
                          && Numeral(step, it.step))
  }

  lemma NumeralHasNo(s: string, v: int, c: char)
    requires Numeral(s, v) && (c == '-' || c == '/' || c == ',' || c == '*')
    ensures c !in s && s != ""
  {
    var digits :| digits != "" && AllDigits(digits) && (s == digits || s == "+" + digits) && v == DecimalValue(digits);
  }

  /** Atoi reads exactly the numerals, when no minus sign occurs. */
  lemma AtoiReadsNumerals(s: string, v: int)
    ensures '-' !in s ==> (Atoi(s) == Some(v) <==> Numeral(s, v))
    ensures v >= 1 ==> (Atoi(s) == Some(v) <==> Numeral(s, v))
  {
    if Numeral(s, v) {
      var digits :| digits != "" && AllDigits(digits) && (s == digits || s == "+" + digits)
          && v == DecimalValue(digits);
      assert s == "+" + digits ==> s[1..] == digits;
      assert s[0] != '-' && ('0' <= s[0] <= '9' || s[0] == '+');
    }
    if Atoi(s) == Some(v) && ('-' !in s || v >= 1) {
      var digits := if s[0] == '+' || s[0] == '-' then s[1..] else s;
      assert s[0] != '-';
      assert s == digits || s == "+" + digits;
      assert Numeral(s, v);
    }
  }

  lemma TwoPieces(x: string, c: char, y: string)
    requires c !in x && c !in y
    ensures c in x + [c] + y && Split(x + [c] + y, c) == [x, y]
  {
    SplitJoin([x, y], c);
    assert Join([x, y], c) == x + [c] + y by {
      assert [x, y][1..] == [y];
    }
    assert (x + [c] + y)[|x|] == c;
  }

  lemma PiecesOf(s: string, c: char)
    requires |Split(s, c)| == 2
    ensures var p := Split(s, c); c in s && s == p[0] + [c] + p[1]
  {
    var p := Split(s, c);
    JoinSplit(s, c);
    assert p[1..] == [p[1]];
  }

  lemma RangeHasNo(s: string, lo: int, hi: int, a: int, b: int, c: char)
    requires RangeText(s, lo, hi, a, b) && (c == '/' || c == ',')
    ensures c !in s && s != ""
  {
    if s == "*" {
    } else if Bound(s, a, lo, hi) {
      NumeralHasNo(s, a, c);
    } else {
      var x, y :| s == x + "-" + y && Bound(x, a, lo, hi) && Bound(y, b, lo, hi);
      NumeralHasNo(x, a, c);
      NumeralHasNo(y, b, c);
    }
  }

  lemma RangeFromGrammar(s: string, lo: int, hi: int, a: int, b: int)
    requires RangeText(s, lo, hi, a, b)
    ensures ParseRange(s, lo, hi) == Some((a, b))
  {
    if s == "*" {
      if Bound(s, a, lo, hi) {
        NumeralHasNo(s, a, '*');
      } else if x, y :| s == x + "-" + y && Bound(x, a, lo, hi) && Bound(y, b, lo, hi) {
        NumeralHasNo(x, a, '*');
      }
    } else if Bound(s, a, lo, hi) && a == b {
      NumeralHasNo(s, a, '-');
      AtoiReadsNumerals(s, a);
    } else {
      var x, y :| s == x + "-" + y && Bound(x, a, lo, hi) && Bound(y, b, lo, hi);
      NumeralHasNo(x, a, '-');
      NumeralHasNo(y, b, '-');
      TwoPieces(x, '-', y);
      BoundRead(x, a, lo, hi);
      BoundRead(y, b, lo, hi);
    }
  }

  lemma BoundRead(s: string, v: int, lo: int, hi: int)
    requires '-' !in s
    ensures ParseBound(s, lo, hi) == Some(v) <==> Bound(s, v, lo, hi)
  {
    AtoiReadsNumerals(s, v);
  }

  lemma GrammarFromRange(s: string, lo: int, hi: int, a: int, b: int)
    requires ParseRange(s, lo, hi) == Some((a, b))
    ensures RangeText(s, lo, hi, a, b)
  {
    if s != "*" {
      if '-' in s {
        var p := Split(s, '-');
        PiecesOf(s, '-');
        BoundRead(p[0], a, lo, hi);
        BoundRead(p[1], b, lo, hi);
        assert s == p[0] + "-" + p[1];
      } else {
        BoundRead(s, a, lo, hi);
      }
    }
  }

  lemma SteppedItemFromGrammar(range: string, step: string, lo: int, hi: int, it: Item)
    requires RangeText(range, lo, hi, it.start, it.end) && Numeral(step, it.step) && it.step >= 1
    ensures ParseItem(range + "/" + step, lo, hi) == Some(it)
  {
    RangeHasNo(range, lo, hi, it.start, it.end, '/');
    NumeralHasNo(step, it.step, '/');
    TwoPieces(range, '/', step);
    AtoiReadsNumerals(step, it.step);
    RangeFromGrammar(range, lo, hi, it.start, it.end);
    assert ParseStep(range + "/" + step) == Some((range, it.step));
  }

  lemma ItemFromGrammar(s: string, lo: int, hi: int, it: Item)
    requires ItemText(s, lo, hi, it)
    ensures ParseItem(s, lo, hi) == Some(it)
  {
    if RangeText(s, lo, hi, it.start, it.end) && it.step == 1 {
      RangeHasNo(s, lo, hi, it.start, it.end, '/');
      RangeFromGrammar(s, lo, hi, it.start, it.end);
    } else {
      var range, step :| s == range + "/" + step && RangeText(range, lo, hi, it.start, it.end)
          && Numeral(step, it.step);
      SteppedItemFromGrammar(range, step, lo, hi, it);
    }
  }

  lemma GrammarFromItem(s: string, lo: int, hi: int, it: Item)
    requires ParseItem(s, lo, hi) == Some(it)
    ensures ItemText(s, lo, hi, it)
  {
    if '/' in s {
      var p := Split(s, '/');
      PiecesOf(s, '/');
      AtoiReadsNumerals(p[1], it.step);
      GrammarFromRange(p[0], lo, hi, it.start, it.end);
      assert s == p[0] + "/" + p[1];
    } else {
      GrammarFromRange(s, lo, hi, it.start, it.end);
    }
  }

  /** The parser accepts exactly the items of the grammar, with the grammar's meaning. */
  lemma ItemGrammar(s: string, lo: int, hi: int, it: Item)
    ensures ParseItem(s, lo, hi) == Some(it) <==> ItemText(s, lo, hi, it)
  {
    if ItemText(s, lo, hi, it) {
      ItemFromGrammar(s, lo, hi, it);
    }
    if ParseItem(s, lo, hi) == Some(it) {
      GrammarFromItem(s, lo, hi, it);
    }
  }

  // The values of an item, with the wrap-around of `value += step`.

  function Wrap(x: int): int {
    if x > MAX_INT then x - 0x1_0000_0000_0000_0000 else x
  }

  /** Where the loop variable can be: near zero, or one step below that after a wrap. */
  predicate LoopValue(v: int, end: int, step: int) {
    && 0 <= end <= 63 && 1 <= step <= MAX_INT
    && MIN_INT <= v
    && (v >= -64 || (step > MAX_INT - end && -64 <= v + step <= end))
  }

  /** Decreases along the loop even when the variable wraps: two wrapping steps lower it. */
  function LoopRank(v: int, end: int, step: int): nat
    requires LoopValue(v, end, step)
  {
    if v > end then 0
    else if step <= MAX_INT - end then end - v + 1
    else if v >= -64 then 2 * (v + 64) + 1
    else 2 * (v + step + 64) + 2
  }

  lemma LoopStep(v: int, end: int, step: int)
    requires LoopValue(v, end, step) && v <= end
    ensures LoopValue(Wrap(v + step), end, step)
    ensures LoopRank(Wrap(v + step), end, step) < LoopRank(v, end, step)
  {
  }

  ghost function LoopValues(v: int, end: int, step: int): set<int>
    requires LoopValue(v, end, step)
    decreases LoopRank(v, end, step)
  {
    if v > end then {}
    else
      LoopStep(v, end, step);
      {v} + LoopValues(Wrap(v + step), end, step)
  }

  predicate KSteps(from: int, step: int, k: int, v: int) {
    k >= 0 && v == from + k * step
  }

  /** The intended values of an item: start + k * step, up to end. */
  ghost predicate InProgression(it: Item, v: int) {
    v <= it.end && exists k :: KSteps(it.start, it.step, k, v)
  }

  lemma OneStepMore(from: int, step: int, k: int, v: int)
    ensures KSteps(from + step, step, k - 1, v) <==> k >= 1 && KSteps(from, step, k, v)
    ensures step >= 1 && KSteps(from, step, k, v) ==> v >= from
    ensures KSteps(from, step, 0, from)
  {
    assert (k - 1) * step == k * step - step;
    if step >= 1 && k >= 0 {
      assert k * step >= 0;
    }
  }

  lemma {:induction false} LoopValuesExact(v: int, end: int, step: int, u: int)
    requires LoopValue(v, end, step) && 0 <= v && v + step <= MAX_INT
    ensures u in LoopValues(v, end, step) <==> InProgression(Item(v, end, step), u)
    decreases LoopRank(v, end, step)
  {
    if v > end {
      if k :| KSteps(v, step, k, u) {
        OneStepMore(v, step, k, u);
      }
    } else {
      LoopStep(v, end, step);
      var w := v + step;
      if w <= end {
        LoopValuesExact(w, end, step, u);
      }
      OneStepMore(v, step, 0, u);
      if k :| KSteps(w, step, k, u) {
        OneStepMore(v, step, k + 1, u);
        OneStepMore(w, step, k, u);
      }
      if k :| KSteps(v, step, k, u) {
        OneStepMore(v, step, k, u);
        if k >= 1 {
          OneStepMore(w, step, k - 1, u);
        }
      }
    }
  }

  /** The loop collects exactly the progression if and only if start + step does not overflow; otherwise a
      negative value enters the set. */
  lemma ItemExactlyWhen(it: Item, lo: int, hi: int)
    requires 0 <= lo <= hi <= 59 && ItemInRange(it, lo, hi)
    ensures LoopValue(it.start, it.end, it.step)
    ensures (forall v :: v in LoopValues(it.start, it.end, it.step) <==> InProgression(it, v))
            <==> it.start + it.step <= MAX_INT
    ensures it.start + it.step > MAX_INT ==> exists v :: v < 0 && v in LoopValues(it.start, it.end, it.step)
    ensures it.start in LoopValues(it.start, it.end, it.step)
  {
    if it.start + it.step <= MAX_INT {
      forall v ensures v in LoopValues(it.start, it.end, it.step) <==> InProgression(it, v) {
        LoopValuesExact(it.start, it.end, it.step, v);
      }
    } else {
      var w := Wrap(it.start + it.step);
      LoopStep(it.start, it.end, it.step);
      assert w in LoopValues(w, it.end, it.step);
      assert w < 0 && w in LoopValues(it.start, it.end, it.step);
      assert !InProgression(it, w) by {
        if k :| KSteps(it.start, it.step, k, w) {
          OneStepMore(it.start, it.step, k, w);
        }
      }
    }
  }

  // Whole fields.

  /** 7 is another name for Sunday. */
  function Normalized(weekday: bool, v: int): int {
    if weekday && v == 7 then 0 else v
  }

  ghost function ItemsOf(parts: seq<string>, lo: int, hi: int): (r: Option<seq<Item>>)
    ensures r.Some? ==> |r.value| == |parts|
    ensures r.Some? ==> forall i :: 0 <= i < |parts| ==> ParseItem(parts[i], lo, hi) == Some(r.value[i])
    ensures r.None? ==> exists i :: 0 <= i < |parts| && ParseItem(parts[i], lo, hi).None?
  {
    if parts == [] then Some([])
    else
      var n := |parts| - 1;
      match ItemsOf(parts[..n], lo, hi)
      case None => None
      case Some(items) =>
        match ParseItem(parts[n], lo, hi)
        case None => None
        case Some(it) => Some(items + [it])
  }

  ghost predicate LoopItem(it: Item) {
    LoopValue(it.start, it.end, it.step)
  }

  /** What the field's map ends up holding. */
  ghost function FieldValues(items: seq<Item>, weekday: bool): (r: set<int>)
    requires forall i :: 0 <= i < |items| ==> LoopItem(items[i])
  {
    if items == [] then {}
    else
      var it := items[|items| - 1];
      assert LoopItem(it);
      FieldValues(items[..|items| - 1], weekday)
      + (set v | v in LoopValues(it.start, it.end, it.step) :: Normalized(weekday, v))
  }

  ghost predicate FromItem(it: Item, weekday: bool, v: int)
    requires LoopItem(it)
  {
    exists u :: u in LoopValues(it.start, it.end, it.step) && v == Normalized(weekday, u)
  }

  lemma {:induction false} FieldValuesAre(items: seq<Item>, weekday: bool, v: int)
    requires forall i :: 0 <= i < |items| ==> LoopItem(items[i])
    ensures v in FieldValues(items, weekday) <==> exists i :: 0 <= i < |items| && FromItem(items[i], weekday, v)
  {
    if items != [] {
      var n := |items| - 1;
      FieldValuesAre(items[..n], weekday, v);
      if v in FieldValues(items[..n], weekday) {
        var i :| 0 <= i < n && FromItem(items[..n][i], weekday, v);
        assert FromItem(items[i], weekday, v);
      }
      if i :| 0 <= i < |items| && FromItem(items[i], weekday, v) {
        if i < n {
          assert FromItem(items[..n][i], weekday, v);
        }
      }
    }
  }

  ghost predicate Denoted(items: seq<Item>, weekday: bool, v: int) {
    exists i, u :: 0 <= i < |items| && InProgression(items[i], u) && v == Normalized(weekday, u)
  }

  predicate ItemsInRange(items: seq<Item>, lo: int, hi: int) {
    forall i :: 0 <= i < |items| ==> ItemInRange(items[i], lo, hi)
  }

  /** Every denoted value lies in the field's range, weekdays from 0 to 6. */
  lemma DenotedInRange(items: seq<Item>, lo: int, hi: int, weekday: bool, v: int)
    requires 0 <= lo <= hi <= 59 && ItemsInRange(items, lo, hi)
    requires Denoted(items, weekday, v)
    ensures if weekday && v == 0 then lo == 0 || hi >= 7 else lo <= v <= hi && !(weekday && v == 7)
  {
    var i, u :| 0 <= i < |items| && InProgression(items[i], u) && v == Normalized(weekday, u);
    var k :| KSteps(items[i].start, items[i].step, k, u);
    OneStepMore(items[i].start, items[i].step, k, u);
  }

  /** A field's set is the union of its items' progressions if and only if no item's first step overflows. */
  lemma FieldExactlyWhen(items: seq<Item>, lo: int, hi: int, weekday: bool)
    requires 0 <= lo <= hi <= 59 && ItemsInRange(items, lo, hi)
    ensures forall i :: 0 <= i < |items| ==> LoopItem(items[i])
    ensures (forall v :: v in FieldValues(items, weekday) <==> Denoted(items, weekday, v))
            <==> (forall i :: 0 <= i < |items| ==> items[i].start + items[i].step <= MAX_INT)
  {
    forall i | 0 <= i < |items| ensures LoopItem(items[i]) {
      ItemExactlyWhen(items[i], lo, hi);
    }
    if forall i :: 0 <= i < |items| ==> items[i].start + items[i].step <= MAX_INT {
      forall v ensures v in FieldValues(items, weekday) <==> Denoted(items, weekday, v) {
        NoOverflowField(items, lo, hi, weekday, v);
      }
    } else {
      var i :| 0 <= i < |items| && items[i].start + items[i].step > MAX_INT;
      ItemExactlyWhen(items[i], lo, hi);
      var w :| w < 0 && w in LoopValues(items[i].start, items[i].end, items[i].step);
      assert FromItem(items[i], weekday, Normalized(weekday, w));
      FieldValuesAre(items, weekday, w);
      assert w in FieldValues(items, weekday);
      if Denoted(items, weekday, w) {
        DenotedInRange(items, lo, hi, weekday, w);
      }
    }
  }

  lemma NoOverflowField(items: seq<Item>, lo: int, hi: int, weekday: bool, v: int)
    requires 0 <= lo <= hi <= 59 && ItemsInRange(items, lo, hi)
    requires forall i :: 0 <= i < |items| ==> LoopItem(items[i]) && items[i].start + items[i].step <= MAX_INT
    ensures v in FieldValues(items, weekday) <==> Denoted(items, weekday, v)
  {
    FieldValuesAre(items, weekday, v);
    forall i | 0 <= i < |items|
      ensures FromItem(items[i], weekday, v) <==> exists u :: InProgression(items[i], u) && v == Normalized(weekday, u)
    {
      ItemExactlyWhen(items[i], lo, hi);
    }
  }

  /** The value of a field, as the parser builds it. */
  ghost function FieldOf(raw: string, lo: int, hi: int, weekday: bool): Option<Field>
    requires 0 <= lo <= hi <= 59
  {
    if raw == "" then None
    else
      match ItemsOf(Split(raw, ','), lo, hi)
      case None => None
      case Some(items) =>
        if FieldValues(items, weekday) == {} then None else Some(Field(FieldValues(items, weekday), raw == "*"))
  }

  /** Value u of a list item of the text, the item meaning it. */
  ghost predicate ItemValue(raw: string, part: string, lo: int, hi: int, it: Item, u: int) {
    part in Split(raw, ',') && ItemText(part, lo, hi, it) && InProgression(it, u)
  }

  /** The values that the text of a field stands for: the union of the progressions of its list items, where weekday 7
      is another name for 0. */
  ghost predicate DenotedByText(raw: string, lo: int, hi: int, weekday: bool, v: int) {
    exists part, it, u :: ItemValue(raw, part, lo, hi, it, u) && v == if weekday && u == 7 then 0 else u
  }

  /** No list item's first step overflows. */
  ghost predicate FirstStepsFit(raw: string, lo: int, hi: int) {
    forall part, it :: part in Split(raw, ',') && ItemText(part, lo, hi, it) ==> it.start + it.step <= MAX_INT
  }

  lemma DenotedByItems(raw: string, items: seq<Item>, lo: int, hi: int, weekday: bool, v: int)
    requires ItemsOf(Split(raw, ','), lo, hi) == Some(items)
    ensures Denoted(items, weekday, v) <==> DenotedByText(raw, lo, hi, weekday, v)
  {
    var parts := Split(raw, ',');
    if Denoted(items, weekday, v) {
      var i, u :| 0 <= i < |items| && InProgression(items[i], u) && v == Normalized(weekday, u);
      GrammarFromItem(parts[i], lo, hi, items[i]);
      assert ItemValue(raw, parts[i], lo, hi, items[i], u);
    }
    if part, it, u :| ItemValue(raw, part, lo, hi, it, u) && v == Normalized(weekday, u) {
      var i :| 0 <= i < |parts| && parts[i] == part;
      ItemFromGrammar(part, lo, hi, it);
      assert items[i] == it;
    }
  }

  lemma FirstStepsOfItems(raw: string, items: seq<Item>, lo: int, hi: int)
    requires ItemsOf(Split(raw, ','), lo, hi) == Some(items)
    ensures (forall i :: 0 <= i < |items| ==> items[i].start + items[i].step <= MAX_INT) <==> FirstStepsFit(raw, lo, hi)
  {
    var parts := Split(raw, ',');
    forall i | 0 <= i < |items| ensures ItemText(parts[i], lo, hi, items[i]) && parts[i] in parts {
      GrammarFromItem(parts[i], lo, hi, items[i]);
    }
    forall part, it | part in parts && ItemText(part, lo, hi, it) ensures it in items {
      var i :| 0 <= i < |parts| && parts[i] == part;
      ItemFromGrammar(part, lo, hi, it);
      assert items[i] == it;
    }
  }

  /** Parsing is exact: an accepted field holds exactly the values that its text stands for if and only if no list
      item's first step overflows. */
  lemma FieldMeansItsText(raw: string, lo: int, hi: int, weekday: bool)
    requires 0 <= lo <= hi <= 59 && FieldOf(raw, lo, hi, weekday).Some?
    ensures (forall v :: v in FieldOf(raw, lo, hi, weekday).value.values <==> DenotedByText(raw, lo, hi, weekday, v))
            <==> FirstStepsFit(raw, lo, hi)
  {
    var items := ItemsOf(Split(raw, ','), lo, hi).value;
    FieldExactlyWhen(items, lo, hi, weekday);
    FirstStepsOfItems(raw, items, lo, hi);
    forall v ensures Denoted(items, weekday, v) <==> DenotedByText(raw, lo, hi, weekday, v) {
      DenotedByItems(raw, items, lo, hi, weekday, v);
    }
  }

  ghost predicate GrammarItem(part: string, lo: int, hi: int) {
    exists it :: ItemText(part, lo, hi, it)
  }

  lemma PartAccepted(part: string, lo: int, hi: int)
    ensures ParseItem(part, lo, hi).Some? <==> GrammarItem(part, lo, hi)
  {
    if ParseItem(part, lo, hi).Some? {
      GrammarFromItem(part, lo, hi, ParseItem(part, lo, hi).value);
    }
    if it :| ItemText(part, lo, hi, it) {
      ItemFromGrammar(part, lo, hi, it);
    }
  }

  /** The check for an empty set never fires: the first item's start is always collected. */
  lemma FieldHoldsStart(items: seq<Item>, lo: int, hi: int, weekday: bool)
    requires 0 <= lo <= hi <= 59 && items != [] && ItemsInRange(items, lo, hi)
    ensures forall i :: 0 <= i < |items| ==> LoopItem(items[i])
    ensures Normalized(weekday, items[0].start) in FieldValues(items, weekday)
  {
    forall i | 0 <= i < |items| ensures LoopItem(items[i]) {
      ItemExactlyWhen(items[i], lo, hi);
    }
    ItemExactlyWhen(items[0], lo, hi);
    assert FromItem(items[0], weekday, Normalized(weekday, items[0].start));
    FieldValuesAre(items, weekday, Normalized(weekday, items[0].start));
  }

  /** A field is accepted if and only if it is a list of items of the grammar, and then holds a value of its range. */
  lemma FieldAccepted(raw: string, lo: int, hi: int, weekday: bool)
    requires 0 <= lo <= hi <= 59 && (weekday ==> lo == 0)
    ensures FieldOf(raw, lo, hi, weekday).Some?
            <==> (forall part | part in Split(raw, ',') :: GrammarItem(part, lo, hi))
    ensures FieldOf(raw, lo, hi, weekday).Some? ==>
            exists v :: lo <= v <= hi && !(weekday && v == 7) && v in FieldOf(raw, lo, hi, weekday).value.values
  {
    var parts := Split(raw, ',');
    forall part | part in parts ensures ParseItem(part, lo, hi).Some? <==> GrammarItem(part, lo, hi) {
      PartAccepted(part, lo, hi);
    }
    if raw == "" {
      assert parts == [""] && "" in parts;
    }
    var items := ItemsOf(parts, lo, hi);
    if items.Some? {
      FieldHoldsStart(items.value, lo, hi, weekday);
    } else {
      var i :| 0 <= i < |parts| && ParseItem(parts[i], lo, hi).None?;
      assert parts[i] in parts;
    }
  }

  /** parseField's inner loop over the values of one item. */
  method AddItemValues(values: set<int>, it: Item, weekday: bool) returns (r: set<int>)
    requires LoopItem(it)
    ensures r == values + (set v | v in LoopValues(it.start, it.end, it.step) :: Normalized(weekday, v))
  {
    r := values;
    var value := it.start;
    while value <= it.end
      invariant LoopValue(value, it.end, it.step)
      invariant values + (set v | v in LoopValues(it.start, it.end, it.step) :: Normalized(weekday, v))
             == r + (set v | v in LoopValues(value, it.end, it.step) :: Normalized(weekday, v))
      decreases LoopRank(value, it.end, it.step)
    {
      LoopStep(value, it.end, it.step);
      r := r + {Normalized(weekday, value)};
      value := Wrap(value + it.step);
    }
  }

  /** What the field's map holds after some list items; None once an item is rejected. */
  ghost function PartValues(parts: seq<string>, lo: int, hi: int, weekday: bool): Option<set<int>>
    requires 0 <= lo <= hi <= 59
  {
    match ItemsOf(parts, lo, hi)
    case None => None
    case Some(items) => Some(FieldValues(items, weekday))
  }

  lemma OneMorePart(parts: seq<string>, i: nat, it: Item, lo: int, hi: int, weekday: bool)
    requires 0 <= lo <= hi <= 59 && i < |parts| && ParseItem(parts[i], lo, hi) == Some(it)
    requires PartValues(parts[..i], lo, hi, weekday).Some?
    ensures LoopItem(it)
    ensures PartValues(parts[..i + 1], lo, hi, weekday)
         == Some(PartValues(parts[..i], lo, hi, weekday).value
                 + (set v | v in LoopValues(it.start, it.end, it.step) :: Normalized(weekday, v)))
  {
    var items := ItemsOf(parts[..i], lo, hi).value;
    assert parts[..i + 1][..i] == parts[..i];
    assert (items + [it])[..|items|] == items;
  }

  lemma FieldOfParts(raw: string, lo: int, hi: int, weekday: bool)
    requires 0 <= lo <= hi <= 59
    ensures FieldOf(raw, lo, hi, weekday)
         == if raw == "" then None
            else match PartValues(Split(raw, ','), lo, hi, weekday)
                 case None => None
                 case Some(values) => if values == {} then None else Some(Field(values, raw == "*"))
  {
  }

  /** parseField. */
  method ParseField(raw: string, lo: int, hi: int, weekday: bool) returns (r: Option<Field>)
    requires 0 <= lo <= hi <= 59
    ensures r == FieldOf(raw, lo, hi, weekday)
  {
    FieldOfParts(raw, lo, hi, weekday);
    if raw == "" {
      return None;
    }
    r := ParseParts(Split(raw, ','), lo, hi, weekday, raw == "*");
  }

  /** Its loops, over the list items. */
  method ParseParts(parts: seq<string>, lo: int, hi: int, weekday: bool, all: bool) returns (r: Option<Field>)
    requires 0 <= lo <= hi <= 59
    ensures r == match PartValues(parts, lo, hi, weekday)
                 case None => None
                 case Some(values) => if values == {} then None else Some(Field(values, all))
  {
    var values: set<int> := {};
    NoParts(lo, hi, weekday);
    assert parts[..0] == [];
    var i := 0;
    while i < |parts|
      invariant 0 <= i <= |parts|
      invariant PartValues(parts[..i], lo, hi, weekday) == Some(values)
    {
      var item := ParseItem(parts[i], lo, hi);
      if item.None? {
        RejectedItem(parts, lo, hi, i);
        return None;
      }
      OneMorePart(parts, i, item.value, lo, hi, weekday);
      values := AddItemValues(values, item.value, weekday);
      i := i + 1;
    }
    assert parts[..|parts|] == parts;
    return if values == {} then None else Some(Field(values, all));
  }

  lemma NoParts(lo: int, hi: int, weekday: bool)
    requires 0 <= lo <= hi <= 59
    ensures PartValues([], lo, hi, weekday) == Some({})
  {
  }

  lemma RejectedItem(parts: seq<string>, lo: int, hi: int, i: nat)
    requires i < |parts| && ParseItem(parts[i], lo, hi).None?
    ensures ItemsOf(parts, lo, hi).None?
  {
  }

  /** The schedule an expression stands for. */
  ghost function ScheduleOf(expr: string): Option<Schedule> {
    var parts := Fields(expr);
    if |parts| != 5 then None
    else
      var minute := FieldOf(parts[0], 0, 59, false);
      var hour := FieldOf(parts[1], 0, 23, false);
      var dom := FieldOf(parts[2], 1, 31, false);
      var month := FieldOf(parts[3], 1, 12, false);
      var dow := FieldOf(parts[4], 0, 7, true);
      if minute.Some? && hour.Some? && dom.Some? && month.Some? && dow.Some?
      then Some(Schedule(minute.value, hour.value, dom.value, month.value, dow.value))
      else None
  }

  /** Whether each item of a comma-separated list is in the grammar. */
  ghost predicate ListText(raw: string, lo: int, hi: int) {
    forall part | part in Split(raw, ',') :: GrammarItem(part, lo, hi)
  }

  /** A field that stands for a text: it holds exactly the text's values if no list item's first step overflows, and
      only then, and it is a star if the text is. */
  ghost predicate StandsFor(field: Field, raw: string, lo: int, hi: int, weekday: bool) {
    && (field.all <==> raw == "*")
    && (FirstStepsFit(raw, lo, hi) <==> forall v :: v in field.values <==> DenotedByText(raw, lo, hi, weekday, v))
  }

  lemma FieldStandsFor(raw: string, lo: int, hi: int, weekday: bool)
    requires 0 <= lo <= hi <= 59 && (weekday ==> lo == 0)
    ensures FieldOf(raw, lo, hi, weekday).Some? <==> ListText(raw, lo, hi)
    ensures FieldOf(raw, lo, hi, weekday).Some? ==> StandsFor(FieldOf(raw, lo, hi, weekday).value, raw, lo, hi, weekday)
  {
    FieldAccepted(raw, lo, hi, weekday);
    if FieldOf(raw, lo, hi, weekday).Some? {
      FieldMeansItsText(raw, lo, hi, weekday);
    }
  }

  /** What an expression means. It is accepted if and only if it has five tokens, of which the first is a list for
      minutes 0 to 59, the second for hours 0 to 23, the third for days 1 to 31, the fourth for months 1 to 12 and the
      fifth for weekdays 0 to 7, where 7 is 0; and each field of the schedule then stands for its own token. */
  lemma ExpressionMeansItsTokens(expr: string)
    ensures ScheduleOf(expr).Some?
            <==> var tokens := Fields(expr);
                 && |tokens| == 5
                 && ListText(tokens[0], 0, 59) && ListText(tokens[1], 0, 23) && ListText(tokens[2], 1, 31)
                 && ListText(tokens[3], 1, 12) && ListText(tokens[4], 0, 7)
    ensures ScheduleOf(expr).Some? ==>
              var tokens, s := Fields(expr), ScheduleOf(expr).value;
              && |tokens| == 5
              && StandsFor(s.minute, tokens[0], 0, 59, false) && StandsFor(s.hour, tokens[1], 0, 23, false)
              && StandsFor(s.dom, tokens[2], 1, 31, false) && StandsFor(s.month, tokens[3], 1, 12, false)
              && StandsFor(s.dow, tokens[4], 0, 7, true)
  {
    var tokens := Fields(expr);
    if |tokens| == 5 {
      FieldStandsFor(tokens[0], 0, 59, false);
      FieldStandsFor(tokens[1], 0, 23, false);
      FieldStandsFor(tokens[2], 1, 31, false);
      FieldStandsFor(tokens[3], 1, 12, false);
      FieldStandsFor(tokens[4], 0, 7, true);
    }
  }

  /** For five tokens with single spaces between them: they are the fields, in this order, and a schedule whose first
      steps fit lists exactly the values of the tokens. */
  lemma ScheduleOfTokens(expr: string, a: string, b: string, c: string, d: string, e: string)
    requires expr == Join([a, b, c, d, e], ' ')
    requires forall token | token in [a, b, c, d, e] :: token != "" && SpaceFree(token)
    ensures ScheduleOf(expr).Some?
            <==> && ListText(a, 0, 59) && ListText(b, 0, 23) && ListText(c, 1, 31) && ListText(d, 1, 12)
                 && ListText(e, 0, 7)
    ensures ScheduleOf(expr).Some? ==>
              var s := ScheduleOf(expr).value;
              && (s.minute.all <==> a == "*") && (s.hour.all <==> b == "*") && (s.dom.all <==> c == "*")
              && (s.month.all <==> d == "*") && (s.dow.all <==> e == "*")
    ensures ScheduleOf(expr).Some? && FirstStepsFit(a, 0, 59)
            ==> forall v :: v in ScheduleOf(expr).value.minute.values <==> DenotedByText(a, 0, 59, false, v)
    ensures ScheduleOf(expr).Some? && FirstStepsFit(b, 0, 23)
            ==> forall v :: v in ScheduleOf(expr).value.hour.values <==> DenotedByText(b, 0, 23, false, v)
    ensures ScheduleOf(expr).Some? && FirstStepsFit(c, 1, 31)
            ==> forall v :: v in ScheduleOf(expr).value.dom.values <==> DenotedByText(c, 1, 31, false, v)
    ensures ScheduleOf(expr).Some? && FirstStepsFit(d, 1, 12)
            ==> forall v :: v in ScheduleOf(expr).value.month.values <==> DenotedByText(d, 1, 12, false, v)
    ensures ScheduleOf(expr).Some? && FirstStepsFit(e, 0, 7)
            ==> forall v :: v in ScheduleOf(expr).value.dow.values <==> DenotedByText(e, 0, 7, true, v)
  {
    FieldsOfTokens([a, b, c, d, e]);
    ExpressionMeansItsTokens(expr);
  }

  method Parse(expr: string) returns (r: Option<Schedule>)
    ensures r == ScheduleOf(expr)
  {
    var parts := Fields(expr);
    if |parts| != 5 {
      return None;
    }
    var minute := ParseField(parts[0], 0, 59, false);
    if minute.None? { return None; }
    var hour := ParseField(parts[1], 0, 23, false);
    if hour.None? { return None; }
    var dom := ParseField(parts[2], 1, 31, false);
    if dom.None? { return None; }
    var month := ParseField(parts[3], 1, 12, false);
    if month.None? { return None; }
    var dow := ParseField(parts[4], 0, 7, true);
    if dow.None? { return None; }
    return Some(Schedule(minute.value, hour.value, dom.value, month.value, dow.value));
  }

  /** Every accepted expression is a schedule to which the window theorem applies. */
  lemma ParsedIsWellFormed(expr: string)
    requires ScheduleOf(expr).Some?
    ensures CronWindow.WellFormed(ScheduleOf(expr).value)
  {
    var parts := Fields(expr);
    FieldAccepted(parts[0], 0, 59, false);
    FieldAccepted(parts[1], 0, 23, false);
    FieldAccepted(parts[2], 1, 31, false);
    FieldAccepted(parts[3], 1, 12, false);
    FieldAccepted(parts[4], 0, 7, true);
  }

  /** cronexpr.Next: the next run of an expression, None when it does not parse or finds no match. */
  ghost function NextRun(expr: string, after: Time): Option<Time> {
    match ScheduleOf(expr)
    case None => None
    case Some(s) =>
      match NextMinute(s, after)
      case None => None
      case Some(m) => Some(m * MINUTE)
  }

  method NextOf(expr: string, after: Time) returns (r: Option<Time>)
    ensures r == NextRun(expr, after)
  {
    var s := Parse(expr);
    if s.None? {
      return None;
    }
    r := Next(s.value, after);
  }
}

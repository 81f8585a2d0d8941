/**
 * `calculateAge`: the puppy's age as Russian text, from the whole number of
 * days between the birth instant and now (both taken in Moscow time).
 * Reading the text back (`ParseAge`) recovers the day count, which shows the
 * tiers lose no information; `FormsAgree` checks each number against the word
 * that follows it.
 */
module Age {
  import opened Wrappers
  import opened Text

  const MsPerDay := 1000 * 60 * 60 * 24

  /** `Math.floor(diffTime / (1000 * 60 * 60 * 24))`. */
  function DiffDays(diffMs: int): (d: int)
    ensures d * MsPerDay <= diffMs < (d + 1) * MsPerDay
  {
    diffMs / MsPerDay
  }

  /** The three forms a Russian noun takes after a number. */
  datatype Forms = Forms(one: string, few: string, many: string)

  const DayForms := Forms("день", "дня", "дней")
  const WeekForms := Forms("неделя", "недели", "недель")
  const MonthForms := Forms("месяц", "месяца", "месяцев")

  const NotBornText := "Еще не родилась"
  const BornTodayText := "Сегодня родилась!"

  /** `n === 1 ? one : n < 5 ? few : many`. */
  function Form(n: int, f: Forms): string {
    if n == 1 then f.one else if n < 5 then f.few else f.many
  }

  /** `${n} ${form}`. */
  function Quantity(n: nat, f: Forms): string {
    NatToString(n) + " " + Form(n, f)
  }

  /** A count of weeks or months, followed by the remaining days unless there are none. */
  function Span(n: nat, f: Forms, days: nat): string {
    if days == 0 then Quantity(n, f) else Quantity(n, f) + " " + Quantity(days, DayForms)
  }

  /** The age text exactly as the tiers are written: every count from 2 to 6 days takes the form "дня". */
  function AgeTextAsWritten(d: int): (r: string)
    ensures r == NotBornText <==> d < 0
    ensures r == BornTodayText <==> d == 0
  {
    if d < 0 then NotBornText
    else if d == 0 then BornTodayText
    else if d == 1 then "1 день"
    else if d < 7 then
      CountedTextIsNoPhrase(d, " дня");
      NatToString(d) + " дня"
    else if d < 30 then
      SpanIsNoPhrase(d / 7, WeekForms, d % 7);
      Span(d / 7, WeekForms, d % 7)
    else
      SpanIsNoPhrase(d / 30, MonthForms, d % 30);
      Span(d / 30, MonthForms, d % 30)
  }

  /** The age text with the 2 to 6 day tier using the same 1 / 2-4 / 5+ rule as the other tiers. */
  function AgeText(d: int): (r: string)
    ensures r == NotBornText <==> d < 0
    ensures r == BornTodayText <==> d == 0
  {
    if d < 0 then NotBornText
    else if d == 0 then BornTodayText
    else if d == 1 then "1 день"
    else if d < 7 then
      CountedTextIsNoPhrase(d, " " + Form(d, DayForms));
      Quantity(d, DayForms)
    else if d < 30 then
      SpanIsNoPhrase(d / 7, WeekForms, d % 7);
      Span(d / 7, WeekForms, d % 7)
    else
      SpanIsNoPhrase(d / 30, MonthForms, d % 30);
      Span(d / 30, MonthForms, d % 30)
  }

  /** `calculateAge` from the difference of the two Moscow-time instants, in milliseconds. */
  function CalculateAge(diffMs: int): (r: string)
    ensures r == NotBornText <==> diffMs < 0
    ensures r == BornTodayText <==> 0 <= diffMs < MsPerDay
  {
    AgeTextAsWritten(DiffDays(diffMs))
  }

  // Reading an age text back

  /** How many days one unit named by `word` stands for. */
  function UnitDays(word: string): Option<nat> {
    if word == DayForms.one || word == DayForms.few || word == DayForms.many then Some(1)
    else if word == WeekForms.one || word == WeekForms.few || word == WeekForms.many then Some(7)
    else if word == MonthForms.one || word == MonthForms.few || word == MonthForms.many then Some(30)
    else None
  }

  /** The days a numeral followed by a unit word stands for. */
  function ReadQuantity(num: string, word: string): Option<nat> {
    match (ParseNat(num), UnitDays(word))
    case (Some(n), Some(u)) => Some(n * u)
    case _ => None
  }

  /** The day count an age text states, for the texts of non-negative day counts. */
  function ParseAge(text: string): Option<nat> {
    if text == BornTodayText then Some(0)
    else
      var w := SplitAtSpaces(text);
      if |w| == 2 then ReadQuantity(w[0], w[1])
      else if |w| == 4 && UnitDays(w[3]) == Some(1) && UnitDays(w[1]) != Some(1) then
        match (ReadQuantity(w[0], w[1]), ReadQuantity(w[2], w[3]))
        case (Some(a), Some(b)) => Some(a + b)
        case _ => None
      else None
  }

  /** The unit word after a numeral is the form the 1 / 2-4 / 5+ rule picks for that number. */
  predicate FormAgrees(num: string, word: string) {
    match ParseNat(num)
    case None => false
    case Some(n) =>
      || (UnitDays(word) == Some(1) && word == Form(n, DayForms))
      || (UnitDays(word) == Some(7) && word == Form(n, WeekForms))
      || (UnitDays(word) == Some(30) && word == Form(n, MonthForms))
  }

  /** Every number of a counted age text is followed by the form the rule picks for it. */
  predicate FormsAgree(text: string) {
    var w := SplitAtSpaces(text);
    || (|w| == 2 && FormAgrees(w[0], w[1]))
    || (|w| == 4 && FormAgrees(w[0], w[1]) && FormAgrees(w[2], w[3]))
  }

  lemma FormFacts(n: int, f: Forms)
    requires f == DayForms || f == WeekForms || f == MonthForms
    ensures HasNoSpace(Form(n, f))
    ensures UnitDays(Form(n, f)) == Some(if f == DayForms then 1 else if f == WeekForms then 7 else 30)
  {
  }

  /** A numeral followed by a unit word splits into those two words. */
  lemma SplitQuantity(n: nat, f: Forms)
    requires f == DayForms || f == WeekForms || f == MonthForms
    ensures SplitAtSpaces(Quantity(n, f)) == [NatToString(n), Form(n, f)]
  {
    FormFacts(n, f);
    SplitWordThen(NatToString(n), Form(n, f));
    SplitWord(Form(n, f));
  }

  lemma SplitTwoQuantities(n: nat, f: Forms, k: nat)
    requires f == WeekForms || f == MonthForms
    ensures SplitAtSpaces(Quantity(n, f) + " " + Quantity(k, DayForms))
            == [NatToString(n), Form(n, f), NatToString(k), Form(k, DayForms)]
  {
    var num, word := NatToString(n), Form(n, f);
    FormFacts(n, f);
    assert Quantity(n, f) + " " + Quantity(k, DayForms) == num + " " + (word + " " + Quantity(k, DayForms));
    SplitWordThen(num, word + " " + Quantity(k, DayForms));
    SplitWordThen(word, Quantity(k, DayForms));
    SplitQuantity(k, DayForms);
  }

  lemma {:induction false} ReadQuantityOf(n: nat, f: Forms)
    requires f == DayForms || f == WeekForms || f == MonthForms
    ensures ReadQuantity(NatToString(n), Form(n, f)) == Some(n * (if f == DayForms then 1 else if f == WeekForms then 7 else 30))
    ensures FormAgrees(NatToString(n), Form(n, f))
  {
    ParseNatToString(n);
    FormFacts(n, f);
  }

  /** A counted text begins with a digit, so it is neither fixed phrase. */
  lemma CountedTextIsNoPhrase(n: nat, rest: string)
    ensures NatToString(n) + rest != BornTodayText
    ensures NatToString(n) + rest != NotBornText
  {
    var s := NatToString(n) + rest;
    assert IsDigit(s[0]);
    assert !IsDigit(BornTodayText[0]) && !IsDigit(NotBornText[0]);
  }

  lemma SpanIsNoPhrase(n: nat, f: Forms, k: nat)
    ensures Span(n, f, k) != BornTodayText && Span(n, f, k) != NotBornText
  {
    if k == 0 {
      CountedTextIsNoPhrase(n, " " + Form(n, f));
    } else {
      assert Span(n, f, k) == NatToString(n) + (" " + Form(n, f) + " " + Quantity(k, DayForms));
      CountedTextIsNoPhrase(n, " " + Form(n, f) + " " + Quantity(k, DayForms));
    }
  }

  /** A whole number of weeks or months reads back as its day count, and its form agrees. */
  lemma WholeSpanReadsBack(n: nat, f: Forms)
    requires f == WeekForms || f == MonthForms
    ensures ParseAge(Quantity(n, f)) == Some(n * (if f == WeekForms then 7 else 30))
    ensures FormsAgree(Quantity(n, f))
  {
    CountedTextIsNoPhrase(n, " " + Form(n, f));
    SplitQuantity(n, f);
    ReadQuantityOf(n, f);
  }

  /** Weeks or months followed by the remaining days read back as the day count, and both forms agree. */
  lemma MixedSpanReadsBack(n: nat, f: Forms, k: nat)
    requires f == WeekForms || f == MonthForms
    requires k > 0
    ensures ParseAge(Span(n, f, k)) == Some(n * (if f == WeekForms then 7 else 30) + k)
    ensures FormsAgree(Span(n, f, k))
  {
    MixedSpanWords(n, f, k);
    ReadQuantityOf(n, f);
    ReadQuantityOf(k, DayForms);
    FormFacts(n, f);
    FormFacts(k, DayForms);
  }

  /** A weeks-and-days or months-and-days text is no fixed phrase and splits into its two numerals and two words. */
  lemma MixedSpanWords(n: nat, f: Forms, k: nat)
    requires f == WeekForms || f == MonthForms
    requires k > 0
    ensures Span(n, f, k) != BornTodayText
    ensures SplitAtSpaces(Span(n, f, k)) == [NatToString(n), Form(n, f), NatToString(k), Form(k, DayForms)]
  {
    assert Span(n, f, k) == NatToString(n) + (" " + Form(n, f) + " " + Quantity(k, DayForms));
    CountedTextIsNoPhrase(n, " " + Form(n, f) + " " + Quantity(k, DayForms));
    SplitTwoQuantities(n, f, k);
  }

  /** The text of a week or month span reads back as its day count, and each of its numbers takes the right form. */
  lemma SpanReadsBack(n: nat, f: Forms, k: nat)
    requires f == WeekForms || f == MonthForms
    ensures ParseAge(Span(n, f, k)) == Some(n * (if f == WeekForms then 7 else 30) + k)
    ensures FormsAgree(Span(n, f, k))
  {
    if k == 0 {
      WholeSpanReadsBack(n, f);
    } else {
      MixedSpanReadsBack(n, f, k);
    }
  }

  /** Reading the age text back gives the day count: distinct non-negative day counts never share a text. */
  lemma AgeTextReadsBack(d: int)
    requires d >= 0
    ensures ParseAge(AgeText(d)) == Some(d)
  {
    if d == 0 {
    } else if d < 7 {
      CountedTextIsNoPhrase(d, " " + Form(d, DayForms));
      SplitQuantity(d, DayForms);
      ReadQuantityOf(d, DayForms);
      assert d == 1 ==> AgeText(d) == Quantity(1, DayForms);
    } else if d < 30 {
      SpanReadsBack(d / 7, WeekForms, d % 7);
    } else {
      SpanReadsBack(d / 30, MonthForms, d % 30);
    }
  }

  lemma AgeTextInjective(d1: int, d2: int)
    requires d1 >= 0 && d2 >= 0 && AgeText(d1) == AgeText(d2)
    ensures d1 == d2
  {
    AgeTextReadsBack(d1);
    AgeTextReadsBack(d2);
  }

  /** In the corrected text every number is followed by the form the rule picks for it. */
  lemma AgeTextFormsAgree(d: int)
    requires d >= 1
    ensures FormsAgree(AgeText(d))
  {
    if d < 7 {
      SplitQuantity(d, DayForms);
      ReadQuantityOf(d, DayForms);
      assert d == 1 ==> AgeText(d) == Quantity(1, DayForms);
    } else if d < 30 {
      SpanReadsBack(d / 7, WeekForms, d % 7);
    } else {
      SpanReadsBack(d / 30, MonthForms, d % 30);
    }
  }

  /** From 2 to 6 days the text as written is the numeral and the word "дня". */
  lemma AsWrittenDayWords(d: int)
    requires 2 <= d < 7
    ensures AgeTextAsWritten(d) != BornTodayText
    ensures SplitAtSpaces(AgeTextAsWritten(d)) == [NatToString(d), DayForms.few]
  {
    assert AgeTextAsWritten(d) == NatToString(d) + " " + DayForms.few;
    FormFacts(2, DayForms);
    SplitWordThen(NatToString(d), DayForms.few);
    SplitWord(DayForms.few);
  }

  /** Reading the text as written back gives the day count: the wrong form at 5 and 6 days loses no information. */
  lemma AsWrittenReadsBack(d: int)
    requires d >= 0
    ensures ParseAge(AgeTextAsWritten(d)) == Some(d)
  {
    if 2 <= d < 7 {
      AsWrittenDayWords(d);
      FormFacts(2, DayForms);
      ParseNatToString(d);
    } else {
      AsWrittenDiffersAtFiveAndSix(d);
      AgeTextReadsBack(d);
    }
  }

  lemma AsWrittenInjective(d1: int, d2: int)
    requires d1 >= 0 && d2 >= 0 && AgeTextAsWritten(d1) == AgeTextAsWritten(d2)
    ensures d1 == d2
  {
    AsWrittenReadsBack(d1);
    AsWrittenReadsBack(d2);
  }

  /** The age shown for a non-negative elapsed time reads back as the whole days elapsed. */
  lemma CalculateAgeReadsBack(diffMs: int)
    requires diffMs >= 0
    ensures ParseAge(CalculateAge(diffMs)) == Some(diffMs / MsPerDay)
  {
    AsWrittenReadsBack(DiffDays(diffMs));
  }

  /** The unit of the tier a positive day count falls in: days below a week, weeks below 30 days, months from there. */
  function TierUnit(d: int): (u: nat)
    ensures u == 1 || u == 7 || u == 30
    ensures d >= 1 ==> 1 <= u <= d
  {
    if d < 7 then 1 else if d < 30 then 7 else 30
  }

  /** The words of a week or month span: the count, its unit, and the remaining days when there are any. */
  lemma SpanWords(n: nat, f: Forms, k: nat)
    requires f == WeekForms || f == MonthForms
    ensures var w := SplitAtSpaces(Span(n, f, k));
            && |w| >= 2 && ParseNat(w[0]) == Some(n) && UnitDays(w[1]) == Some(if f == WeekForms then 7 else 30)
            && (|w| == 2 <==> k == 0)
            && (k != 0 ==> |w| == 4 && ParseNat(w[2]) == Some(k) && UnitDays(w[3]) == Some(1))
  {
    ParseNatToString(n);
    FormFacts(n, f);
    if k == 0 {
      SplitQuantity(n, f);
    } else {
      MixedSpanWords(n, f, k);
      ParseNatToString(k);
      FormFacts(k, DayForms);
    }
  }

  /**
   * The tiers of the text as written: the first word counts the largest unit
   * that fits, the second names that unit, and the remaining days below one
   * unit follow only when there are any.
   */
  lemma AsWrittenTiers(d: int)
    requires d >= 1
    ensures var w, u := SplitAtSpaces(AgeTextAsWritten(d)), TierUnit(d);
            && |w| >= 2 && ParseNat(w[0]) == Some(d / u) && UnitDays(w[1]) == Some(u)
            && (|w| == 2 <==> d % u == 0)
            && (d % u != 0 ==> |w| == 4 && ParseNat(w[2]) == Some(d % u) && UnitDays(w[3]) == Some(1))
  {
    if d == 1 {
      assert AgeTextAsWritten(d) == Quantity(1, DayForms);
      SplitQuantity(1, DayForms);
      ParseNatToString(1);
      FormFacts(1, DayForms);
    } else if d < 7 {
      AsWrittenDayWords(d);
      FormFacts(2, DayForms);
      ParseNatToString(d);
    } else if d < 30 {
      SpanWords(d / 7, WeekForms, d % 7);
    } else {
      SpanWords(d / 30, MonthForms, d % 30);
    }
  }

  /** The text as written differs from the corrected one exactly at 5 and 6 days. */
  lemma AsWrittenDiffersAtFiveAndSix(d: int)
    ensures AgeTextAsWritten(d) == AgeText(d) <==> d != 5 && d != 6
  {
    if 2 <= d < 7 {
      assert NatToString(d) + " дня" == NatToString(d) + " " + "дня";
      if d >= 5 {
        assert |NatToString(d) + " дня"| != |Quantity(d, DayForms)|;
      }
    }
  }

  /** "5 дня": the text as written breaks the rule its own week and month tiers follow. */
  lemma AsWrittenFiveDaysDisagrees()
    ensures !FormsAgree(AgeTextAsWritten(5))
  {
    var text := AgeTextAsWritten(5);
    assert text == NatToString(5) + " " + DayForms.few;
    FormFacts(2, DayForms);
    SplitWordThen(NatToString(5), DayForms.few);
    SplitWord(DayForms.few);
    ParseNatToString(5);
  }

  /** Between 7 and 29 days the week count is 1 to 4, so the form "недель" never appears there. */
  lemma WeeksBandNeverMany(d: int)
    requires 7 <= d < 30
    ensures 1 <= d / 7 <= 4 && Form(d / 7, WeekForms) != WeekForms.many
  {
  }

  /** The worked examples: one day, ten days and forty days after birth. */
  lemma OneDayExample()
    ensures CalculateAge(MsPerDay) == "1 день"
  {
  }

  lemma TenDaysExample()
    ensures CalculateAge(10 * MsPerDay) == "1 неделя 3 дня"
  {
    assert DiffDays(10 * MsPerDay) == 10;
    assert NatToString(1) == "1" && NatToString(3) == "3";
    assert Quantity(1, WeekForms) == "1 неделя";
    assert Quantity(3, DayForms) == "3 дня";
  }

  lemma FortyDaysExample()
    ensures CalculateAge(40 * MsPerDay) == "1 месяц 10 дней"
  {
    assert DiffDays(40 * MsPerDay) == 40;
    assert NatToString(1) == "1" && NatToString(10) == "10";
    assert Quantity(1, MonthForms) == "1 месяц";
    assert Quantity(10, DayForms) == "10 дней";
  }
}

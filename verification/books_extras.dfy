/** The catalogue's template filters: Belarusian plural forms (`by_plural`), gendered word
    forms (`gender`) and audiobook durations (`duration`). */
module BooksExtras {
  import opened Wrappers
  import opened Text

  /** The exception a filter raises: too few comma-separated variants for the chosen index. */
  datatype FilterError = IndexError

  /** The variant index for a count: 0 for "one" (1, 21, 101, …), 1 for "few" (2–4, 22–24, …)
      and 2 for "many", the teens included. */
  function PluralVariant(value: int): (v: nat)
    ensures v < 3
    ensures v == 0 <==> Abs(value) % 10 == 1 && Abs(value) % 100 != 11
    ensures v == 1 <==> 2 <= Abs(value) % 10 <= 4 && !(10 <= Abs(value) % 100 < 20)
  {
    var n := Abs(value);
    if n % 10 == 1 && n % 100 != 11 then 0
    else if n % 10 >= 2 && n % 10 <= 4 && (n % 100 < 10 || n % 100 >= 20) then 1
    else 2
  }

  function Abs(i: int): nat {
    if i < 0 then -i else i
  }

  /** 11 to 14 (and 111 to 114, …) take the "many" form, unlike 1 to 4. */
  lemma TeensTakeMany(value: int)
    requires 11 <= Abs(value) % 100 <= 14
    ensures PluralVariant(value) == 2
  {
  }

  /** The form depends only on the last two digits and not on the sign. */
  lemma PluralByLastTwoDigits(value: int)
    ensures PluralVariant(value) == PluralVariant(-value) == PluralVariant(Abs(value) % 100)
  {
    var n := Abs(value);
    var t := n % 100;
    assert n == 100 * (n / 100) + t;
    assert t % 100 == t;
    assert n % 10 == t % 10 by {
      assert n == 10 * (10 * (n / 100) + t / 10) + t % 10;
    }
  }

  /** `by_plural`: the variant of `variants.split(',')` picked by `PluralVariant`. */
  function ByPlural(value: int, variants: string): (r: Result<string, FilterError>)
    ensures |Split(variants, ",")| >= 3 ==> r.Success?
    ensures r.Success? <==> PluralVariant(value) < |Split(variants, ",")|
    ensures r.Success? ==> r.value == Split(variants, ",")[PluralVariant(value)]
    ensures r.Success? ==> !Contains(r.value, ",")
  {
    var forms := Split(variants, ",");
    var v := PluralVariant(value);
    if v < |forms| then
      SplitPiecesFree(variants, ",");
      Success(forms[v])
    else Failure(IndexError)
  }

  /** `gender`: the first variant for `'FEMALE'`, the second for anything else, including none. */
  function Gender(value: Option<string>, variants: string): (r: Result<string, FilterError>)
    ensures r.Failure? <==> value != Some("FEMALE") && |Split(variants, ",")| < 2
    ensures r.Success? && value == Some("FEMALE") ==> r.value == Split(variants, ",")[0]
    ensures r.Success? && value != Some("FEMALE") ==> r.value == Split(variants, ",")[1]
  {
    var forms := Split(variants, ",");
    var v := if value.Some? && value.value == "FEMALE" then 0 else 1;
    if v < |forms| then Success(forms[v]) else Failure(IndexError)
  }

  /** `w` is where `s` starts: all of `s`, or `s` up to its first comma. */
  predicate LeadingPiece(s: string, w: string) {
    s == w || (|w| < |s| && s[..|w| + 1] == w + ",")
  }

  /** The first of the comma-joined parts is the leading piece of the joined text. */
  lemma JoinLeading(parts: seq<string>)
    requires |parts| >= 1
    ensures LeadingPiece(Join(parts, ","), parts[0])
  {
    if |parts| > 1 {
      JoinCons(parts[0], parts[1..], ",");
      assert [parts[0]] + parts[1..] == parts;
      var joined := Join(parts, ",");
      assert joined == parts[0] + "," + Join(parts[1..], ",");
      assert joined[..|parts[0]| + 1] == parts[0] + ",";
    }
  }

  /** What `gender` picks, read off the variants text itself: a comma-free piece, the text up to
      the first comma for 'FEMALE', otherwise the text after the first comma up to the next one. */
  lemma GenderPlacement(value: Option<string>, variants: string)
    requires Gender(value, variants).Success?
    ensures ',' !in Gender(value, variants).value
    ensures value == Some("FEMALE") ==> LeadingPiece(variants, Gender(value, variants).value)
    ensures value != Some("FEMALE") ==>
      exists i | 0 <= i < |variants| :: variants[i] == ',' && ',' !in variants[..i]
                                         && LeadingPiece(variants[i + 1..], Gender(value, variants).value)
  {
    var forms := Split(variants, ",");
    JoinSplit(variants, ",");
    SplitPiecesNoChar(variants, ',');
    if value == Some("FEMALE") {
      JoinLeading(forms);
    } else {
      JoinCons(forms[0], forms[1..], ",");
      assert [forms[0]] + forms[1..] == forms;
      assert variants == forms[0] + "," + Join(forms[1..], ",");
      var i := |forms[0]|;
      assert variants[..i] == forms[0];
      assert variants[i + 1..] == Join(forms[1..], ",");
      JoinLeading(forms[1..]);
      assert variants[i] == ',';
    }
  }

  /** The form `by_plural` picks for `value` from forms already split at commas. */
  function PluralForm(value: int, forms: seq<string>): string
    requires |forms| >= 3
  {
    forms[PluralVariant(value)]
  }

  /** With three forms or more, `by_plural` is the pick from the split variants. */
  lemma ByPluralPicks(value: int, variants: string)
    requires |Split(variants, ",")| >= 3
    ensures ByPlural(value, variants) == Success(PluralForm(value, Split(variants, ",")))
  {
  }

  // ----- duration -----

  const HourVariants := "гадзіна,гадзіны,гадін"
  const MinuteVariants := "мінута,мінуты,мінут"
  const SecondVariants := "сякунда,сякунды,сякунд"
  const DayVariants := "дзень,дня,дней"

  const HourForms: seq<string> := ["гадзіна", "гадзіны", "гадін"]
  const MinuteForms: seq<string> := ["мінута", "мінуты", "мінут"]
  const SecondForms: seq<string> := ["сякунда", "сякунды", "сякунд"]
  const DayForms: seq<string> := ["дзень", "дня", "дней"]

  /** The variant strings `duration` passes to `by_plural` split into these forms, so the word
      it shows for a count is the form `by_plural` picks. */
  lemma HourWord(value: int)
    ensures ByPlural(value, HourVariants) == Success(PluralForm(value, HourForms))
  {
    assert HourVariants == Join(HourForms, ",");
    SplitJoinChar(HourForms, ',');
  }

  lemma MinuteWord(value: int)
    ensures ByPlural(value, MinuteVariants) == Success(PluralForm(value, MinuteForms))
  {
    assert MinuteVariants == Join(MinuteForms, ",");
    SplitJoinChar(MinuteForms, ',');
  }

  lemma SecondWord(value: int)
    ensures ByPlural(value, SecondVariants) == Success(PluralForm(value, SecondForms))
  {
    assert SecondVariants == Join(SecondForms, ",");
    SplitJoinChar(SecondForms, ',');
  }

  lemma DayWord(value: int)
    ensures ByPlural(value, DayVariants) == Success(PluralForm(value, DayForms))
  {
    assert DayVariants == Join(DayForms, ",");
    SplitJoinChar(DayForms, ',');
  }

  /** No form of the duration tables contains a space. */
  predicate Spaceless(forms: seq<string>) {
    forall k | 0 <= k < |forms| :: ' ' !in forms[k]
  }

  lemma TablesSpaceless()
    ensures Spaceless(HourForms) && Spaceless(MinuteForms) && Spaceless(SecondForms) && Spaceless(DayForms)
  {
  }

  lemma FormSpaceless(value: int, forms: seq<string>)
    requires |forms| >= 3 && Spaceless(forms)
    ensures ' ' !in PluralForm(value, forms)
  {
  }

  lemma IntTextSpaceless(i: int)
    ensures ' ' !in IntText(i)
  {
    IntTextSymbols(i);
  }

  /** A `timedelta` as Python normalises it: any day count, and seconds within one day. */
  datatype Span = Span(days: int, seconds: int)

  predicate Normalised(t: Span) {
    0 <= t.seconds < 86400
  }

  /** `seconds // 3600`, `(seconds % 3600) // 60` and `seconds % 60`. */
  function Clock(seconds: nat): (nat, nat, nat) {
    (seconds / 3600, (seconds % 3600) / 60, seconds % 60)
  }

  /** The split is exact and each part is in range. */
  lemma ClockSplit(seconds: nat)
    requires seconds < 86400
    ensures var (h, m, s) := Clock(seconds);
      h * 3600 + m * 60 + s == seconds && h < 24 && m < 60 && s < 60
  {
    var r := seconds % 3600;
    assert seconds == 3600 * (seconds / 3600) + r;
    assert r == 60 * (r / 60) + r % 60;
    assert r % 60 == seconds % 60 by {
      assert seconds == 60 * (60 * (seconds / 3600) + r / 60) + r % 60;
    }
  }

  /** The fields of `duration` before they are joined by spaces. */
  function DurationFields(t: Span): (f: seq<string>)
    requires Normalised(t)
  {
    var (hrs, mins, secs) := Clock(t.seconds);
    var clock := [IntText(hrs), PluralForm(hrs, HourForms), IntText(mins), PluralForm(mins, MinuteForms),
                  IntText(secs), PluralForm(secs, SecondForms)];
    if t.days != 0 then [IntText(t.days), PluralForm(t.days, DayForms)] + clock else clock
  }

  /** The words in a duration are the forms the tables give for the counts before them. */
  lemma DurationWords(t: Span)
    requires Normalised(t)
    ensures var f, o := DurationFields(t), |DurationFields(t)| - 6;
      && o >= 0
      && f[o + 1] == PluralForm(Clock(t.seconds).0, HourForms)
      && f[o + 3] == PluralForm(Clock(t.seconds).1, MinuteForms)
      && f[o + 5] == PluralForm(Clock(t.seconds).2, SecondForms)
      && (t.days != 0 ==> f[1] == PluralForm(t.days, DayForms))
  {
  }

  lemma DurationFieldsSpaceless(t: Span)
    requires Normalised(t)
    ensures Spaceless(DurationFields(t))
  {
    var (hrs, mins, secs) := Clock(t.seconds);
    IntTextSpaceless(t.days);
    IntTextSpaceless(hrs);
    IntTextSpaceless(mins);
    IntTextSpaceless(secs);
    TablesSpaceless();
    FormSpaceless(t.days, DayForms);
    FormSpaceless(hrs, HourForms);
    FormSpaceless(mins, MinuteForms);
    FormSpaceless(secs, SecondForms);
  }

  /** `duration`: hours, minutes and seconds of the day part, each followed by its plural word,
      preceded by the days when there are any. The f-string puts one space between fields, which
      is `' '.join` of the fields. */
  function Duration(t: Span): string
    requires Normalised(t)
  {
    Join(DurationFields(t), " ")
  }

  /** Splitting a duration at spaces gives back its fields: none of them holds a space. */
  function Fields(t: Span): (r: seq<string>)
    requires Normalised(t)
    ensures r == DurationFields(t)
  {
    DurationFieldsSpaceless(t);
    SplitJoinChar(DurationFields(t), ' ');
    Split(Duration(t), " ")
  }

  /** A duration reads back: splitting at spaces gives eight fields when there are days and six
      otherwise; the numbers are the days and an hours/minutes/seconds split of the seconds. */
  lemma DurationReadsBack(t: Span)
    requires Normalised(t)
    ensures |Fields(t)| == if t.days != 0 then 8 else 6
    ensures t.days != 0 ==> ParseInt(Fields(t)[0]) == Some(t.days)
    ensures var f, o := Fields(t), |Fields(t)| - 6;
      && ParseInt(f[o]).Some? && ParseInt(f[o + 2]).Some? && ParseInt(f[o + 4]).Some?
      && ParseInt(f[o]).value * 3600 + ParseInt(f[o + 2]).value * 60 + ParseInt(f[o + 4]).value == t.seconds
      && 0 <= ParseInt(f[o]).value < 24 && 0 <= ParseInt(f[o + 2]).value < 60 && 0 <= ParseInt(f[o + 4]).value < 60
  {
    var (hrs, mins, secs) := Clock(t.seconds);
    ClockSplit(t.seconds);
    var f := Fields(t);
    var o := |f| - 6;
    assert f[o] == IntText(hrs) && f[o + 2] == IntText(mins) && f[o + 4] == IntText(secs);
    IntTextRoundTrip(t.days);
    IntTextRoundTrip(hrs);
    IntTextRoundTrip(mins);
    IntTextRoundTrip(secs);
  }

  /** A day count shows up in the text exactly when there are days. */
  lemma DaysShownIff(t: Span)
    requires Normalised(t)
    ensures t.days != 0 <==> |Fields(t)| == 8
    ensures t.days == 0 <==> |Fields(t)| == 6
  {
    DurationReadsBack(t);
  }
}

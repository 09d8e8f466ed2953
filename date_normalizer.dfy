/** The posting-time normaliser: from the text of a `waktu-posting` block
    to an aware `datetime` in Jakarta time, or None. The regex search is
    the `PostingPattern` module; this module holds the month table, the
    calendar parse `datetime.strptime(date_str, "%d %B %Y %H:%M:%S")` and
    the attached +07:00 offset. Every failure (no match, an unknown month,
    a value out of range) gives None. */
module DateNormalizer {
  import opened Wrappers
  import opened Text
  import opened Calendar
  import opened PostingPattern

  /** Jakarta time is UTC+7. */
  const JakartaOffsetHours := 7

  /** The keys of the month table, in lower case, January first. */
  const IndonesianMonths: seq<string> := [
    "januari", "februari", "maret", "april", "mei", "juni",
    "juli", "agustus", "september", "oktober", "november", "desember"]

  /** The values of the month table, as `%B` reads them. */
  const EnglishMonths: seq<string> := [
    "January", "February", "March", "April", "May", "June",
    "July", "August", "September", "October", "November", "December"]

  /** The English full month names in lower case, which is how `strptime`
      keeps them for a case-insensitive comparison. */
  const MonthNames: seq<string> := [
    "january", "february", "march", "april", "may", "june",
    "july", "august", "september", "october", "november", "december"]

  /** The Indonesian-to-English month table. */
  const MonthMap: map<string, string> := map[
    "januari" := "January", "februari" := "February", "maret" := "March",
    "april" := "April", "mei" := "May", "juni" := "June",
    "juli" := "July", "agustus" := "August", "september" := "September",
    "oktober" := "October", "november" := "November", "desember" := "December"]

  /** The table pairs the k-th Indonesian name with the k-th English name
      and holds nothing else. */
  lemma MonthMapPairs()
    ensures |IndonesianMonths| == |EnglishMonths| == |MonthNames| == 12
    ensures forall k :: 0 <= k < 12 ==>
      IndonesianMonths[k] in MonthMap && MonthMap[IndonesianMonths[k]] == EnglishMonths[k]
    ensures forall key :: key in MonthMap ==> key in IndonesianMonths
  {
  }

  /** `month_map.get(token.lower(), token)`: the English name for an
      Indonesian month in any case, and the token itself otherwise. */
  function TranslateMonth(token: string): (r: string)
    ensures forall k :: 0 <= k < 12 && Lower(token) == IndonesianMonths[k] ==> r == EnglishMonths[k]
    ensures Lower(token) !in IndonesianMonths ==> r == token
  {
    MonthMapPairs();
    var key := Lower(token);
    if key in MonthMap then MonthMap[key] else token
  }

  /** The English names lower-case to `MonthNames`. */
  lemma EnglishMonthsLower()
    ensures forall k :: 0 <= k < 12 ==> Lower(EnglishMonths[k]) == MonthNames[k]
  {
  }

  /** No name stands for two months: the English names are distinct, and
      an Indonesian name that is also an English one names the same month. */
  lemma MonthNamesDistinct()
    ensures forall j, k :: 0 <= j < 12 && 0 <= k < 12 && MonthNames[j] == MonthNames[k] ==> j == k
    ensures forall j, k :: 0 <= j < 12 && 0 <= k < 12 && IndonesianMonths[j] == MonthNames[k] ==> j == k
  {
  }

  function MonthNumberFrom(key: string, k: nat): (r: Option<int>)
    requires k <= 12
    ensures r.Some? ==> k + 1 <= r.value <= 12 && key == MonthNames[r.value - 1]
    ensures r.None? ==> forall j :: k <= j < 12 ==> key != MonthNames[j]
    decreases 12 - k
  {
    if k == 12 then None
    else if key == MonthNames[k] then Some(k + 1)
    else MonthNumberFrom(key, k + 1)
  }

  /** The `%B` directive: the number of the English month whose full name
      the text spells in any case. */
  function MonthNumber(name: string): (r: Option<int>)
    ensures r.Some? ==> 1 <= r.value <= 12 && Lower(name) == MonthNames[r.value - 1]
    ensures r.None? ==> Lower(name) !in MonthNames
  {
    MonthNumberFrom(Lower(name), 0)
  }

  /** `%d`: one or two digits, 1 to 31. */
  predicate DayDirective(s: string) {
    1 <= |s| <= 2 && AllDigits(s) && 1 <= DigitsValue(s) <= 31
  }

  /** `%Y`: four digits. */
  predicate YearDirective(s: string) {
    |s| == 4 && AllDigits(s)
  }

  /** `%H`: one or two digits, at most 23. */
  predicate HourDirective(s: string) {
    1 <= |s| <= 2 && AllDigits(s) && DigitsValue(s) <= 23
  }

  /** `%M`: one or two digits, at most 59. */
  predicate MinuteDirective(s: string) {
    1 <= |s| <= 2 && AllDigits(s) && DigitsValue(s) <= 59
  }

  /** `%S`: one or two digits, at most 61 (a leap second the directive
      admits and the `datetime` constructor then refuses). */
  predicate SecondDirective(s: string) {
    1 <= |s| <= 2 && AllDigits(s) && DigitsValue(s) <= 61
  }

  /** `datetime.strptime(f"{day} {month} {year} {hour}:{minute}:{second}",
      "%d %B %Y %H:%M:%S")` on the groups of a match, None where it raises
      `ValueError`. The pieces never hold a space or a colon, so each
      directive reads exactly its own piece. */
  function Strptime(g: Groups): (r: Option<DateTime>)
    ensures r.Some? ==> Valid(r.value) && r.value.utcOffsetHours.None?
  {
    if !(DayDirective(g.day) && YearDirective(g.year) && HourDirective(g.hour)
         && MinuteDirective(g.minute) && SecondDirective(g.second))
    then None
    else match MonthNumber(g.month)
      case None => None
      case Some(m) =>
        var t := DateTime(DigitsValue(g.year), m, DigitsValue(g.day),
                          DigitsValue(g.hour), DigitsValue(g.minute), DigitsValue(g.second), None);
        if Valid(t) then Some(t) else None
  }

  /** The time of a posting-time text: the leftmost match, its month
      translated, parsed, and placed at UTC+7. */
  function NormalizeDate(text: string): Option<DateTime> {
    match Search(text)
    case None => None
    case Some(g) =>
      match Strptime(g.(month := TranslateMonth(g.month)))
      case None => None
      case Some(t) => Some(t.(utcOffsetHours := Some(JakartaOffsetHours)))
  }

  /** Every date the normaliser yields is a real date at UTC+7, and a text
      the pattern does not match yields none. */
  lemma NormalizedDateIsJakarta(text: string)
    ensures NormalizeDate(text).Some? ==>
      Valid(NormalizeDate(text).value) && NormalizeDate(text).value.utcOffsetHours == Some(JakartaOffsetHours)
    ensures Search(text).None? ==> NormalizeDate(text).None?
  {
  }

  /** The month lookup is case-insensitive over the twelve Indonesian
      names, and a token outside the table passes through, so that only an
      English full month name still parses: a token names month `m` exactly
      when, in lower case, it is the Indonesian or the English name of `m`. */
  lemma {:induction false} TranslatedMonthNumber(token: string, m: int)
    requires 1 <= m <= 12
    ensures MonthNumber(TranslateMonth(token)) == Some(m)
      <==> Lower(token) == IndonesianMonths[m - 1] || Lower(token) == MonthNames[m - 1]
  {
    MonthNamesDistinct();
    EnglishMonthsLower();
    if k :| 0 <= k < 12 && Lower(token) == IndonesianMonths[k] {
      assert TranslateMonth(token) == EnglishMonths[k];
      assert Lower(TranslateMonth(token)) == MonthNames[k];
    }
  }

  /** The calendar parse is strict: on the groups of a match it succeeds
      exactly when the month is recognised and the numbers form a real
      date and time (day within its month, leap years included, hour below
      24, minute and second below 60, year from 1), and then it yields those
      numbers as a naive value. */
  lemma StrptimeIsStrict(g: Groups)
    requires WellFormed(g)
    ensures Strptime(g).Some? <==>
      && MonthNumber(g.month).Some?
      && 1 <= DigitsValue(g.year)
      && 1 <= DigitsValue(g.day) <= DaysInMonth(DigitsValue(g.year), MonthNumber(g.month).value)
      && DigitsValue(g.hour) < 24 && DigitsValue(g.minute) < 60 && DigitsValue(g.second) < 60
    ensures Strptime(g).Some? ==> Strptime(g).value == DateTime(
      DigitsValue(g.year), MonthNumber(g.month).value, DigitsValue(g.day),
      DigitsValue(g.hour), DigitsValue(g.minute), DigitsValue(g.second), None)
  {
    DigitsBelow(g.year);
    DigitsBelow(g.minute);
    DigitsBelow(g.second);
  }

  /** A string of at most four digits stands for a number below 10^|s|. */
  lemma {:induction false} DigitsBelow(s: string)
    requires AllDigits(s) && |s| <= 4
    ensures |s| <= 1 ==> DigitsValue(s) < 10
    ensures |s| <= 2 ==> DigitsValue(s) < 100
    ensures |s| <= 3 ==> DigitsValue(s) < 1000
    ensures DigitsValue(s) < 10000
    decreases |s|
  {
    if s != [] {
      DigitsBelow(s[..|s| - 1]);
    }
  }

  /** The posting line as the blog writes it, "Ditulis pada : 04 November
      2025, 10:00:53", with two-digit day, hour, minute and second, a
      four-digit year and the month token as given. */
  function PostingText(day: nat, month: string, year: nat, hour: nat, minute: nat, second: nat): (s: string)
    requires day < 100 && year < 10000 && hour < 100 && minute < 100 && second < 100
    ensures |s| == |month| + 33
  {
    PostingHead(day) + month + PostingTail(year, hour, minute, second)
  }

  /** The line up to the month token. */
  function PostingHead(day: nat): (s: string)
    requires day < 100
    ensures |s| == 18
    ensures s[..12] == "Ditulis pada" && s[12] == ' ' && s[13] == ':' && s[14] == ' '
    ensures s[15..17] == Pad2(day) && s[17] == ' '
  {
    "Ditulis pada : " + Pad2(day) + " "
  }

  /** The line after the month token. */
  function PostingTail(year: nat, hour: nat, minute: nat, second: nat): (s: string)
    requires year < 10000 && hour < 100 && minute < 100 && second < 100
    ensures |s| == 15
    ensures s[0] == ' ' && s[1..5] == Pad4(year) && s[5] == ',' && s[6] == ' '
    ensures s[7..9] == Pad2(hour) && s[9] == ':' && s[10..12] == Pad2(minute) && s[12] == ':'
    ensures s[13..] == Pad2(second)
  {
    " " + Pad4(year) + ", " + Pad2(hour) + ":" + Pad2(minute) + ":" + Pad2(second)
  }

  /** The label of a posting line matches the pattern's label. */
  lemma PostingLabel(s: string)
    requires |s| >= 12 && s[..12] == "Ditulis pada"
    ensures LabelAt(s, 0)
  {
    assert s[0..|Label|] == "Ditulis pada";
  }

  /** The layout of a posting line: single spaces, a two-digit day and hour. */
  function PostingLayout(month: string): Layout {
    Layout(1, 1, 2, 1, |month|, 1, 1, 2)
  }

  /** A posting line matches the pattern from its first character. */
  lemma PostingTextFits(day: nat, month: string, year: nat, hour: nat, minute: nat, second: nat)
    requires day < 100 && year < 10000 && hour < 100 && minute < 100 && second < 100
    requires |month| >= 1 && AllIn(month, Word)
    ensures Fits(PostingText(day, month, year, hour, minute, second), 0, PostingLayout(month))
  {
    PostingHeadFits(day, month, year, hour, minute, second);
    PostingDateFits(day, month, year, hour, minute, second);
    PostingTimeFits(day, month, year, hour, minute, second);
  }

  lemma PostingHeadFits(day: nat, month: string, year: nat, hour: nat, minute: nat, second: nat)
    requires day < 100 && year < 10000 && hour < 100 && minute < 100 && second < 100
    ensures HeadFits(PostingText(day, month, year, hour, minute, second), 0, 1, 1)
  {
    var s := PostingText(day, month, year, hour, minute, second);
    var head := PostingHead(day);
    assert s[..18] == head;
    PostingLabel(s);
    SliceSeg(s, 12, 13, Space);
    SliceSeg(s, 14, 15, Space);
  }

  lemma PostingDateFits(day: nat, month: string, year: nat, hour: nat, minute: nat, second: nat)
    requires day < 100 && year < 10000 && hour < 100 && minute < 100 && second < 100
    requires |month| >= 1 && AllIn(month, Word)
    ensures DateFits(PostingText(day, month, year, hour, minute, second), 15, 2, 1, |month|, 1)
  {
    var s := PostingText(day, month, year, hour, minute, second);
    var head, tail := PostingHead(day), PostingTail(year, hour, minute, second);
    var n := |month|;
    assert s[..18] == head;
    assert s[18..18 + n] == month;
    assert s[18 + n..] == tail;
    assert s[15..17] == head[15..17];
    SliceSeg(s, 15, 17, Digit);
    SliceSeg(s, 17, 18, Space);
    SliceSeg(s, 18, 18 + n, Word);
    assert s[18 + n..19 + n] == tail[..1];
    SliceSeg(s, 18 + n, 19 + n, Space);
    assert s[19 + n..23 + n] == tail[1..5];
    SliceSeg(s, 19 + n, 23 + n, Digit);
  }

  lemma PostingTimeFits(day: nat, month: string, year: nat, hour: nat, minute: nat, second: nat)
    requires day < 100 && year < 10000 && hour < 100 && minute < 100 && second < 100
    ensures TimeFits(PostingText(day, month, year, hour, minute, second), |month| + 24, 1, 2)
  {
    var s := PostingText(day, month, year, hour, minute, second);
    var tail := PostingTail(year, hour, minute, second);
    var n := |month|;
    assert s[18 + n..] == tail;
    assert s[24 + n..25 + n] == tail[6..7];
    SliceSeg(s, 24 + n, 25 + n, Space);
    assert s[25 + n..27 + n] == tail[7..9];
    SliceSeg(s, 25 + n, 27 + n, Digit);
    assert s[28 + n..30 + n] == tail[10..12];
    SliceSeg(s, 28 + n, 30 + n, Digit);
    assert s[31 + n..33 + n] == tail[13..];
    SliceSeg(s, 31 + n, 33 + n, Digit);
  }

  /** The groups of that match are the pieces the line was written from. */
  lemma PostingGroups(day: nat, month: string, year: nat, hour: nat, minute: nat, second: nat)
    requires day < 100 && year < 10000 && hour < 100 && minute < 100 && second < 100
    ensures GroupsOf(PostingText(day, month, year, hour, minute, second), 0, PostingLayout(month))
      == Groups(Pad2(day), month, Pad4(year), Pad2(hour), Pad2(minute), Pad2(second))
  {
    var s := PostingText(day, month, year, hour, minute, second);
    var head, tail := PostingHead(day), PostingTail(year, hour, minute, second);
    var n := |month|;
    assert s[..18] == head && s[18..18 + n] == month && s[18 + n..] == tail;
    assert s[15..17] == head[15..17];
    assert s[19 + n..23 + n] == tail[1..5];
    assert s[25 + n..27 + n] == tail[7..9];
    assert s[28 + n..30 + n] == tail[10..12];
    assert s[31 + n..33 + n] == tail[13..];
  }

  /** The search over a posting line finds the six pieces it was written
      from. */
  lemma SearchPostingText(day: nat, month: string, year: nat, hour: nat, minute: nat, second: nat)
    requires day < 100 && year < 10000 && hour < 100 && minute < 100 && second < 100
    requires |month| >= 1 && AllIn(month, Word)
    ensures Search(PostingText(day, month, year, hour, minute, second))
      == Some(Groups(Pad2(day), month, Pad4(year), Pad2(hour), Pad2(minute), Pad2(second)))
  {
    PostingTextFits(day, month, year, hour, minute, second);
    SearchMatchAtStart(PostingText(day, month, year, hour, minute, second), PostingLayout(month));
    PostingGroups(day, month, year, hour, minute, second);
  }

  /** Every month name in the table is a run of lower-case letters. */
  lemma MonthNamesLowerLetters()
    ensures forall k, i :: 0 <= k < 12 && 0 <= i < |IndonesianMonths[k]| ==> 'a' <= IndonesianMonths[k][i] <= 'z'
    ensures forall k, i :: 0 <= k < 12 && 0 <= i < |MonthNames[k]| ==> 'a' <= MonthNames[k][i] <= 'z'
    ensures forall k :: 0 <= k < 12 ==> |IndonesianMonths[k]| >= 3 && |MonthNames[k]| >= 3
  {
  }

  /** A token that lower-cases to a run of lower-case letters is itself a
      run of letters. */
  lemma LowerOfLetters(token: string, name: string)
    requires Lower(token) == name
    requires forall i :: 0 <= i < |name| ==> 'a' <= name[i] <= 'z'
    ensures |token| == |name| && AllIn(token, Word)
  {
    forall i | 0 <= i < |token| ensures InClass(token[i], Word) {
      assert LowerChar(token[i]) == name[i];
    }
  }

  /** Translation keeps a token a run of word characters. */
  lemma TranslateMonthIsWord(token: string)
    requires |token| >= 1 && AllIn(token, Word)
    ensures |TranslateMonth(token)| >= 1 && AllIn(TranslateMonth(token), Word)
  {
    if k :| 0 <= k < 12 && Lower(token) == IndonesianMonths[k] {
      EnglishMonthsLower();
      MonthNamesLowerLetters();
      LowerOfLetters(EnglishMonths[k], MonthNames[k]);
    }
  }

  /** On a posting line the normaliser succeeds exactly when the month
      token names a month and the numbers form a real date and time, and
      it then yields exactly that date and time at UTC+7. */
  lemma NormalizePostingText(day: nat, month: string, year: nat, hour: nat, minute: nat, second: nat)
    requires day < 100 && year < 10000 && hour < 100 && minute < 100 && second < 100
    requires |month| >= 1 && AllIn(month, Word)
    ensures var r := NormalizeDate(PostingText(day, month, year, hour, minute, second));
      var m := MonthNumber(TranslateMonth(month));
      && (r.Some? <==>
           m.Some? && 1 <= year && 1 <= day <= DaysInMonth(year, m.value)
           && hour < 24 && minute < 60 && second < 60)
      && (r.Some? ==> r.value == DateTime(year, m.value, day, hour, minute, second, Some(JakartaOffsetHours)))
  {
    SearchPostingText(day, month, year, hour, minute, second);
    TranslateMonthIsWord(month);
    var g := Groups(Pad2(day), TranslateMonth(month), Pad4(year), Pad2(hour), Pad2(minute), Pad2(second));
    StrptimeIsStrict(g);
  }

  /** Writing a valid date and time as the blog does, with the month in
      Indonesian or English and in any case, and normalising the line gives
      that date and time back at UTC+7. */
  lemma NormalizeDateRoundTrip(t: DateTime, name: string)
    requires Valid(t)
    requires Lower(name) == IndonesianMonths[t.month - 1] || Lower(name) == MonthNames[t.month - 1]
    ensures NormalizeDate(PostingText(t.day, name, t.year, t.hour, t.minute, t.second))
      == Some(t.(utcOffsetHours := Some(JakartaOffsetHours)))
  {
    MonthNamesLowerLetters();
    if Lower(name) == IndonesianMonths[t.month - 1] {
      LowerOfLetters(name, IndonesianMonths[t.month - 1]);
    } else {
      LowerOfLetters(name, MonthNames[t.month - 1]);
    }
    TranslatedMonthNumber(name, t.month);
    NormalizePostingText(t.day, name, t.year, t.hour, t.minute, t.second);
  }

  /** A token that spells, in any case, the Indonesian or English name of
      month `m` yields month `m`, and is a token the pattern captures. */
  lemma MonthToken(token: string, m: int)
    requires 1 <= m <= 12
    requires Lower(token) == IndonesianMonths[m - 1] || Lower(token) == MonthNames[m - 1]
    ensures |token| >= 1 && AllIn(token, Word)
    ensures MonthNumber(TranslateMonth(token)) == Some(m)
  {
    MonthNamesLowerLetters();
    if Lower(token) == IndonesianMonths[m - 1] {
      LowerOfLetters(token, IndonesianMonths[m - 1]);
    } else {
      LowerOfLetters(token, MonthNames[m - 1]);
    }
    TranslatedMonthNumber(token, m);
  }

  /** The posting line quoted beside the pattern in the scraper is a
      posting line in the sense of `PostingText`. */
  lemma WorkedExampleText()
    ensures "Ditulis pada : 04 November 2025, 10:00:53" == PostingText(4, "November", 2025, 10, 0, 53)
  {
    WorkedExampleHead();
    WorkedExampleTail();
    assert "Ditulis pada : 04 November 2025, 10:00:53"
      == "Ditulis pada : 04 " + "November" + " 2025, 10:00:53";
  }

  lemma WorkedExampleHead()
    ensures PostingHead(4) == "Ditulis pada : 04 "
  {
    assert Pad2(4) == "04";
  }

  lemma WorkedExampleTail()
    ensures PostingTail(2025, 10, 0, 53) == " 2025, 10:00:53"
  {
    assert Pad2(10) == "10" && Pad2(0) == "00" && Pad2(53) == "53" && Pad4(2025) == "2025";
  }

  /** That line parses to 4 November 2025, 10:00:53 at +07:00. */
  lemma WorkedExample()
    ensures NormalizeDate("Ditulis pada : 04 November 2025, 10:00:53")
      == Some(DateTime(2025, 11, 4, 10, 0, 53, Some(7)))
  {
    WorkedExampleText();
    assert Lower("November") == IndonesianMonths[10];
    NormalizeDateRoundTrip(DateTime(2025, 11, 4, 10, 0, 53, None), "November");
  }

  /** The 31st of a 30-day month gives None. */
  lemma DayBeyondMonthRejected()
    ensures NormalizeDate(PostingText(31, "November", 2025, 10, 0, 53)).None?
  {
    assert Lower("November") == IndonesianMonths[10];
    MonthToken("November", 11);
    NormalizePostingText(31, "November", 2025, 10, 0, 53);
  }

  /** Hour 24 gives None. */
  lemma Hour24Rejected()
    ensures NormalizeDate(PostingText(4, "November", 2025, 24, 0, 53)).None?
  {
    assert Lower("November") == IndonesianMonths[10];
    MonthToken("November", 11);
    NormalizePostingText(4, "November", 2025, 24, 0, 53);
  }

  /** Second 60 gives None. */
  lemma Second60Rejected()
    ensures NormalizeDate(PostingText(4, "November", 2025, 10, 0, 60)).None?
  {
    assert Lower("November") == IndonesianMonths[10];
    MonthToken("November", 11);
    NormalizePostingText(4, "November", 2025, 10, 0, 60);
  }

  /** The 29th of February parses in a leap year and gives None outside one. */
  lemma LeapDay()
    ensures NormalizeDate(PostingText(29, "Februari", 2024, 10, 0, 53))
      == Some(DateTime(2024, 2, 29, 10, 0, 53, Some(7)))
    ensures NormalizeDate(PostingText(29, "Februari", 2025, 10, 0, 53)).None?
  {
    assert Lower("Februari") == IndonesianMonths[1];
    MonthToken("Februari", 2);
    NormalizePostingText(29, "Februari", 2024, 10, 0, 53);
    NormalizePostingText(29, "Februari", 2025, 10, 0, 53);
  }

  /** An English month name in any case passes through the table and
      still parses. */
  lemma EnglishMonthParses()
    ensures NormalizeDate(PostingText(4, "MAY", 2025, 10, 0, 53))
      == Some(DateTime(2025, 5, 4, 10, 0, 53, Some(7)))
  {
    assert Lower("MAY") == MonthNames[4];
    NormalizeDateRoundTrip(DateTime(2025, 5, 4, 10, 0, 53, None), "MAY");
  }

  /** An abbreviated month name is in neither table and gives None. */
  lemma AbbreviatedMonthRejected()
    ensures NormalizeDate(PostingText(4, "Nov", 2025, 10, 0, 53)).None?
  {
    AbbreviationUnknown();
    assert AllIn("Nov", Word);
    NormalizePostingText(4, "Nov", 2025, 10, 0, 53);
  }

  lemma AbbreviationUnknown()
    ensures MonthNumber(TranslateMonth("Nov")).None?
  {
    assert Lower("Nov") == "nov";
    assert "nov" != "mei" && "nov" != "may";
    assert forall k :: 0 <= k < 12 && k != 4 ==> |IndonesianMonths[k]| > 3 && |MonthNames[k]| > 3;
  }

  /** Text in which the pattern cannot match, such as text with no comma,
      gives None. */
  lemma NoCommaNoDate(text: string)
    requires forall i :: 0 <= i < |text| ==> text[i] != ','
    ensures NormalizeDate(text).None?
  {
    forall r: nat, l | 0 <= r < |text| + 1 ensures !Fits(text, r, l) {
    }
    SearchIsLeftmostMatch(text);
  }
}

/** The one regular expression the scraper applies to a posting-time text,

      Ditulis pada\s*:\s*(\d{1,2})\s+(\w+)\s+(\d{4}),\s*(\d{1,2}):(\d{2}):(\d{2})

    compiled with `re.IGNORECASE` and applied with `re.search`. It is
    written twice: as the texts the pattern describes (`Fits`, one layout of
    run lengths per way of matching) and as a scanner that reads the text
    once (`ScanAt`, `Search`). The lemmas show that the two agree. The
    pattern is split in three stages: the label up to the day
    (`HeadFits`), the date up to the comma (`DateFits`) and the time
    (`TimeFits`). */
module PostingPattern {
  import opened Wrappers
  import opened Text

  /** The literal that opens the pattern, in lower case. */
  const Label: string := "ditulis pada"

  datatype CharClass = Space | Digit | Word

  predicate InClass(c: char, k: CharClass) {
    match k
    case Space => IsSpace(c)
    case Digit => IsDigit(c)
    case Word => IsWordChar(c)
  }

  predicate AllIn(s: string, k: CharClass) {
    forall i :: 0 <= i < |s| ==> InClass(s[i], k)
  }

  /** `s[i..j]` is a run of class `k`. */
  predicate Seg(s: string, i: nat, j: nat, k: CharClass) {
    i <= j <= |s| && forall x {:trigger InClass(s[x], k)} :: i <= x < j ==> InClass(s[x], k)
  }

  lemma SegHas(s: string, i: nat, j: nat, k: CharClass, x: nat)
    requires Seg(s, i, j, k) && i <= x < j
    ensures InClass(s[x], k)
  {
  }

  lemma SegSlice(s: string, i: nat, j: nat, k: CharClass)
    requires Seg(s, i, j, k)
    ensures AllIn(s[i..j], k)
  {
    forall x | 0 <= x < j - i ensures InClass(s[i..j][x], k) {
      assert s[i..j][x] == s[i + x];
    }
  }

  lemma SliceSeg(s: string, i: nat, j: nat, k: CharClass)
    requires i <= j <= |s| && AllIn(s[i..j], k)
    ensures Seg(s, i, j, k)
  {
    forall x | i <= x < j ensures InClass(s[x], k) {
      assert s[x] == s[i..j][x - i];
    }
  }

  lemma SegDigits(s: string, i: nat, j: nat)
    requires Seg(s, i, j, Digit)
    ensures AllDigits(s[i..j])
  {
    forall x | 0 <= x < j - i ensures IsDigit(s[i..j][x]) {
      assert InClass(s[i + x], Digit);
    }
  }

  predicate CharAt(s: string, i: nat, c: char) {
    i < |s| && s[i] == c
  }

  /** The six captured groups: day, month token, year, hour, minute, second. */
  datatype Groups = Groups(day: string, month: string, year: string, hour: string, minute: string, second: string)

  /** The lengths a match leaves open: the five whitespace runs, the number
      of day digits, the length of the month token and the number of hour
      digits. */
  datatype Layout = Layout(
    gapBeforeColon: nat, gapAfterColon: nat, dayLen: nat, gapAfterDay: nat,
    monthLen: nat, gapAfterMonth: nat, gapAfterComma: nat, hourLen: nat)

  /** Where the day starts, after the label and the colon with its gaps. */
  function DayStart(p: nat, gap1: nat, gap2: nat): nat { p + |Label| + gap1 + 1 + gap2 }

  /** Where the time starts, after the date and its comma. */
  function TimeStart(d: nat, dayLen: nat, gap3: nat, monthLen: nat, gap4: nat): nat {
    d + dayLen + gap3 + monthLen + gap4 + 5
  }

  function DayAt(p: nat, l: Layout): nat { DayStart(p, l.gapBeforeColon, l.gapAfterColon) }
  function MonthAt(p: nat, l: Layout): nat { DayAt(p, l) + l.dayLen + l.gapAfterDay }
  function YearAt(p: nat, l: Layout): nat { MonthAt(p, l) + l.monthLen + l.gapAfterMonth }
  function TimeAt(p: nat, l: Layout): nat {
    TimeStart(DayAt(p, l), l.dayLen, l.gapAfterDay, l.monthLen, l.gapAfterMonth)
  }
  function HourAt(p: nat, l: Layout): nat { TimeAt(p, l) + l.gapAfterComma }
  function MatchEnd(p: nat, l: Layout): nat { HourAt(p, l) + l.hourLen + 6 }

  /** `Ditulis pada\s*:\s*` at `p`, ignoring case. */
  predicate LabelAt(s: string, p: nat) {
    p + |Label| <= |s| && Lower(s[p..p + |Label|]) == Label
  }

  predicate HeadFits(s: string, p: nat, gap1: nat, gap2: nat) {
    var a := p + |Label|;
    && LabelAt(s, p)
    && Seg(s, a, a + gap1, Space) && CharAt(s, a + gap1, ':')
    && Seg(s, a + gap1 + 1, a + gap1 + 1 + gap2, Space)
  }

  /** `(\d{1,2})\s+(\w+)\s+(\d{4}),` at `d`. */
  predicate DateFits(s: string, d: nat, dayLen: nat, gap3: nat, monthLen: nat, gap4: nat) {
    var m := d + dayLen + gap3;
    var y := m + monthLen + gap4;
    && 1 <= dayLen <= 2 && Seg(s, d, d + dayLen, Digit)
    && gap3 >= 1 && Seg(s, d + dayLen, m, Space)
    && monthLen >= 1 && Seg(s, m, m + monthLen, Word)
    && gap4 >= 1 && Seg(s, m + monthLen, y, Space)
    && Seg(s, y, y + 4, Digit) && CharAt(s, y + 4, ',')
  }

  /** `\s*(\d{1,2}):(\d{2}):(\d{2})` at `t`. */
  predicate TimeFits(s: string, t: nat, gap5: nat, hourLen: nat) {
    var e := t + gap5 + hourLen;
    && Seg(s, t, t + gap5, Space)
    && 1 <= hourLen <= 2 && Seg(s, t + gap5, e, Digit) && CharAt(s, e, ':')
    && Seg(s, e + 1, e + 3, Digit) && CharAt(s, e + 3, ':')
    && Seg(s, e + 4, e + 6, Digit)
  }

  /** The pattern matches `s` from position `p` with layout `l`. */
  predicate Fits(s: string, p: nat, l: Layout) {
    && MatchEnd(p, l) <= |s|
    && HeadFits(s, p, l.gapBeforeColon, l.gapAfterColon)
    && DateFits(s, DayAt(p, l), l.dayLen, l.gapAfterDay, l.monthLen, l.gapAfterMonth)
    && TimeFits(s, TimeAt(p, l), l.gapAfterComma, l.hourLen)
  }

  /** The groups a match with layout `l` at `p` captures. */
  function GroupsOf(s: string, p: nat, l: Layout): Groups
    requires MatchEnd(p, l) <= |s|
  {
    var d, m, y, h := DayAt(p, l), MonthAt(p, l), YearAt(p, l), HourAt(p, l);
    var e := h + l.hourLen;
    Groups(s[d..d + l.dayLen], s[m..m + l.monthLen], s[y..y + 4], s[h..e], s[e + 1..e + 3], s[e + 4..e + 6])
  }

  /** What every match captures: a day of one or two digits, a month token
      of word characters, a year of four digits, an hour of one or two
      digits, and a minute and a second of two digits each. */
  predicate WellFormed(g: Groups) {
    && 1 <= |g.day| <= 2 && AllDigits(g.day)
    && |g.month| >= 1 && AllIn(g.month, Word)
    && |g.year| == 4 && AllDigits(g.year)
    && 1 <= |g.hour| <= 2 && AllDigits(g.hour)
    && |g.minute| == 2 && AllDigits(g.minute)
    && |g.second| == 2 && AllDigits(g.second)
  }

  /** The date groups of a fitting date: digits, a word and digits. */
  lemma DateGroupsWellFormed(s: string, d: nat, dayLen: nat, gap3: nat, monthLen: nat, gap4: nat)
    requires DateFits(s, d, dayLen, gap3, monthLen, gap4)
    ensures var m := d + dayLen + gap3; var y := m + monthLen + gap4;
      && AllDigits(s[d..d + dayLen]) && AllIn(s[m..m + monthLen], Word) && AllDigits(s[y..y + 4])
  {
    var m := d + dayLen + gap3;
    var y := m + monthLen + gap4;
    SegDigits(s, d, d + dayLen);
    SegSlice(s, m, m + monthLen, Word);
    SegDigits(s, y, y + 4);
  }

  /** The time groups of a fitting time are digits. */
  lemma TimeGroupsWellFormed(s: string, t: nat, gap5: nat, hourLen: nat)
    requires TimeFits(s, t, gap5, hourLen)
    ensures var e := t + gap5 + hourLen;
      && AllDigits(s[t + gap5..e]) && AllDigits(s[e + 1..e + 3]) && AllDigits(s[e + 4..e + 6])
  {
    var e := t + gap5 + hourLen;
    SegDigits(s, t + gap5, e);
    SegDigits(s, e + 1, e + 3);
    SegDigits(s, e + 4, e + 6);
  }

  /** The groups are well formed once their slices are. */
  lemma SlicesWellFormed(s: string, p: nat, l: Layout)
    requires MatchEnd(p, l) <= |s|
    requires 1 <= l.dayLen <= 2 && l.monthLen >= 1 && 1 <= l.hourLen <= 2
    requires var d := DayAt(p, l); var m := d + l.dayLen + l.gapAfterDay; var y := m + l.monthLen + l.gapAfterMonth;
      && AllDigits(s[d..d + l.dayLen]) && AllIn(s[m..m + l.monthLen], Word) && AllDigits(s[y..y + 4])
    requires var t := TimeAt(p, l); var e := t + l.gapAfterComma + l.hourLen;
      && AllDigits(s[t + l.gapAfterComma..e]) && AllDigits(s[e + 1..e + 3]) && AllDigits(s[e + 4..e + 6])
    ensures WellFormed(GroupsOf(s, p, l))
  {
  }

  /** The groups are well formed once the date and the time fit. */
  lemma StageGroupsWellFormed(s: string, p: nat, l: Layout)
    requires MatchEnd(p, l) <= |s|
    requires DateFits(s, DayAt(p, l), l.dayLen, l.gapAfterDay, l.monthLen, l.gapAfterMonth)
    requires TimeFits(s, TimeAt(p, l), l.gapAfterComma, l.hourLen)
    ensures WellFormed(GroupsOf(s, p, l))
  {
    DateGroupsWellFormed(s, DayAt(p, l), l.dayLen, l.gapAfterDay, l.monthLen, l.gapAfterMonth);
    TimeGroupsWellFormed(s, TimeAt(p, l), l.gapAfterComma, l.hourLen);
    SlicesWellFormed(s, p, l);
  }

  lemma FitGroupsWellFormed(s: string, p: nat, l: Layout)
    requires Fits(s, p, l)
    ensures MatchEnd(p, l) <= |s| && WellFormed(GroupsOf(s, p, l))
  {
    StageGroupsWellFormed(s, p, l);
  }

  /** The end of the longest run of class-`k` characters from `i` on. */
  function RunEnd(s: string, i: nat, k: CharClass): (j: nat)
    requires i <= |s|
    ensures Seg(s, i, j, k)
    ensures j == |s| || !InClass(s[j], k)
    decreases |s| - i
  {
    if i < |s| && InClass(s[i], k) then RunEnd(s, i + 1, k) else i
  }

  /** A run that ends where the class stops is the longest run. */
  lemma RunEndAt(s: string, i: nat, j: nat, k: CharClass)
    requires Seg(s, i, j, k)
    requires j == |s| || !InClass(s[j], k)
    ensures RunEnd(s, i, k) == j
  {
    var e := RunEnd(s, i, k);
  }

  /** The first stage read left to right; each repetition takes the longest
      run of its class. The class that follows every repetition of the
      pattern is disjoint from it, so no shorter run could succeed where the
      longest one fails. */
  function ScanHead(s: string, p: nat): (r: Option<(nat, nat)>)
    requires p <= |s|
    ensures r.Some? ==> HeadFits(s, p, r.value.0, r.value.1)
  {
    var a := p + |Label|;
    if !LabelAt(s, p) then None
    else
      var c := RunEnd(s, a, Space);
      if c == |s| || s[c] != ':' then None
      else Some((c - a, RunEnd(s, c + 1, Space) - c - 1))
  }

  function ScanDate(s: string, d: nat): (r: Option<(nat, nat, nat, nat)>)
    requires d <= |s|
    ensures r.Some? ==> DateFits(s, d, r.value.0, r.value.1, r.value.2, r.value.3)
  {
    var dEnd := RunEnd(s, d, Digit);
    var m := RunEnd(s, dEnd, Space);
    var mEnd := RunEnd(s, m, Word);
    var y := RunEnd(s, mEnd, Space);
    var yEnd := RunEnd(s, y, Digit);
    if 1 <= dEnd - d <= 2 && m > dEnd && mEnd > m && y > mEnd && yEnd - y == 4 && CharAt(s, yEnd, ',')
    then Some((dEnd - d, m - dEnd, mEnd - m, y - mEnd))
    else None
  }

  function ScanTime(s: string, t: nat): (r: Option<(nat, nat)>)
    requires t <= |s|
    ensures r.Some? ==> TimeFits(s, t, r.value.0, r.value.1)
  {
    var h := RunEnd(s, t, Space);
    var e := RunEnd(s, h, Digit);
    if 1 <= e - h <= 2 && e + 6 <= |s| && s[e] == ':'
       && IsDigit(s[e + 1]) && IsDigit(s[e + 2]) && s[e + 3] == ':'
       && IsDigit(s[e + 4]) && IsDigit(s[e + 5])
    then Some((h - t, e - h))
    else None
  }

  /** The pattern tried at position `p` alone. */
  function ScanAt(s: string, p: nat): (r: Option<Layout>)
    requires p <= |s|
    ensures r.Some? ==> Fits(s, p, r.value)
  {
    var head := ScanHead(s, p);
    if head.None? then None
    else
      var d := DayStart(p, head.value.0, head.value.1);
      var date := ScanDate(s, d);
      if date.None? then None
      else
        var t := TimeStart(d, date.value.0, date.value.1, date.value.2, date.value.3);
        var time := ScanTime(s, t);
        if time.None? then None
        else Some(Layout(head.value.0, head.value.1, date.value.0, date.value.1, date.value.2, date.value.3,
                         time.value.0, time.value.1))
  }

  lemma ScanHeadComplete(s: string, p: nat, g1: nat, g2: nat)
    requires p <= |s| && HeadFits(s, p, g1, g2)
    requires p + |Label| + g1 + 1 + g2 == |s| || !IsSpace(s[p + |Label| + g1 + 1 + g2])
    ensures ScanHead(s, p) == Some((g1, g2))
  {
    var a := p + |Label|;
    RunEndAt(s, a, a + g1, Space);
    RunEndAt(s, a + g1 + 1, a + g1 + 1 + g2, Space);
  }

  /** A run of one class stops where a run of a disjoint class begins:
      whitespace shares no character with digits or word characters. */
  lemma RunStopsAt(s: string, i: nat, j: nat, k: CharClass, j2: nat, k2: CharClass)
    requires Seg(s, i, j, k) && Seg(s, j, j2, k2) && j < j2
    requires (k == Space) != (k2 == Space)
    ensures RunEnd(s, i, k) == j
  {
    SegHas(s, j, j2, k2, j);
    RunEndAt(s, i, j, k);
  }

  /** The scan of a date once its run ends are known. */
  lemma ScanDateOfRuns(s: string, d: nat, dayLen: nat, gap3: nat, monthLen: nat, gap4: nat)
    requires d <= |s|
    requires var m := d + dayLen + gap3; var y := m + monthLen + gap4;
      && RunEnd(s, d, Digit) == d + dayLen && RunEnd(s, d + dayLen, Space) == m
      && RunEnd(s, m, Word) == m + monthLen && RunEnd(s, m + monthLen, Space) == y
      && RunEnd(s, y, Digit) == y + 4 && CharAt(s, y + 4, ',')
    requires 1 <= dayLen <= 2 && gap3 >= 1 && monthLen >= 1 && gap4 >= 1
    ensures ScanDate(s, d) == Some((dayLen, gap3, monthLen, gap4))
  {
  }

  lemma ScanDateComplete(s: string, d: nat, dayLen: nat, gap3: nat, monthLen: nat, gap4: nat)
    requires d <= |s| && DateFits(s, d, dayLen, gap3, monthLen, gap4)
    ensures ScanDate(s, d) == Some((dayLen, gap3, monthLen, gap4))
  {
    var m := d + dayLen + gap3;
    var y := m + monthLen + gap4;
    RunStopsAt(s, d, d + dayLen, Digit, m, Space);
    RunStopsAt(s, d + dayLen, m, Space, m + monthLen, Word);
    RunStopsAt(s, m, m + monthLen, Word, y, Space);
    RunStopsAt(s, m + monthLen, y, Space, y + 4, Digit);
    RunEndAt(s, y, y + 4, Digit);
    ScanDateOfRuns(s, d, dayLen, gap3, monthLen, gap4);
  }

  lemma ScanTimeComplete(s: string, t: nat, gap5: nat, hourLen: nat)
    requires t <= |s| && TimeFits(s, t, gap5, hourLen)
    ensures ScanTime(s, t) == Some((gap5, hourLen))
  {
    var h := t + gap5;
    var e := h + hourLen;
    SegHas(s, h, e, Digit, h);
    RunEndAt(s, t, h, Space);
    RunEndAt(s, h, e, Digit);
    SegHas(s, e + 1, e + 3, Digit, e + 1);
    SegHas(s, e + 1, e + 3, Digit, e + 2);
    SegHas(s, e + 4, e + 6, Digit, e + 4);
    SegHas(s, e + 4, e + 6, Digit, e + 5);
  }

  /** The scanner finds every match of the pattern, and with it the one
      layout the match has: `ScanAt` is exactly the pattern at `p`. */
  lemma ScanAtFindsEveryFit(s: string, p: nat, l: Layout)
    requires p <= |s|
    ensures ScanAt(s, p) == Some(l) <==> Fits(s, p, l)
  {
    if Fits(s, p, l) {
      var d, t := DayAt(p, l), TimeAt(p, l);
      SegHas(s, d, d + l.dayLen, Digit, d);
      ScanHeadComplete(s, p, l.gapBeforeColon, l.gapAfterColon);
      ScanDateComplete(s, d, l.dayLen, l.gapAfterDay, l.monthLen, l.gapAfterMonth);
      ScanTimeComplete(s, t, l.gapAfterComma, l.hourLen);

    }
  }

  /** `re.search`: the first start position from `p` on, trying `p` to
      `|s|` in turn, where the pattern matches, with the layout it matches. */
  function FindFrom(s: string, p: nat): (r: Option<(nat, Layout)>)
    requires p <= |s|
    ensures r.Some? ==> p <= r.value.0 <= |s| && ScanAt(s, r.value.0) == Some(r.value.1)
    decreases |s| - p
  {
    match ScanAt(s, p)
    case Some(l) => Some((p, l))
    case None => if p == |s| then None else FindFrom(s, p + 1)
  }

  /** The groups of the leftmost match in `s`, if there is one. */
  function Search(s: string): Option<Groups> {
    match FindFrom(s, 0)
    case None => None
    case Some((q, l)) => Some(GroupsOf(s, q, l))
  }

  /** No match of the pattern starts in `p..q-1`. */
  ghost predicate NoFitBetween(s: string, p: nat, q: nat) {
    forall r: nat, l :: p <= r < q ==> !Fits(s, r, l)
  }

  /** The match at `q` with layout `l` is the first one from `p` on. */
  ghost predicate LeftmostFit(s: string, p: nat, q: nat, l: Layout) {
    p <= q <= |s| && Fits(s, q, l) && NoFitBetween(s, p, q)
  }

  /** Where the scanner fails at `p`, no match starts at `p`. */
  lemma NoFitWhereScanFails(s: string, p: nat, q: nat)
    requires p <= |s| && ScanAt(s, p).None? && NoFitBetween(s, p + 1, q)
    ensures NoFitBetween(s, p, q)
  {
    forall l ensures !Fits(s, p, l) {
      ScanAtFindsEveryFit(s, p, l);
    }
  }

  /** `FindFrom` fails only where no match starts from `p` on, and
      otherwise no match starts before the one it finds. */
  lemma {:induction false} FindFromIsLeftmost(s: string, p: nat)
    requires p <= |s|
    ensures NoFitBetween(s, p, if FindFrom(s, p).Some? then FindFrom(s, p).value.0 else |s| + 1)
    decreases |s| - p
  {
    if ScanAt(s, p).None? {
      if p == |s| {
        NoFitWhereScanFails(s, p, |s| + 1);
      } else {
        FindFromIsLeftmost(s, p + 1);
        NoFitWhereScanFails(s, p, if FindFrom(s, p).Some? then FindFrom(s, p).value.0 else |s| + 1);
      }
    }
  }

  /** `Search` returns None exactly when the pattern matches nowhere in
      `s`, and otherwise the groups of the leftmost match; the captured
      groups are always well formed. */
  lemma SearchIsLeftmostMatch(s: string)
    ensures Search(s).None? <==> NoFitBetween(s, 0, |s| + 1)
    ensures Search(s).Some? ==>
      WellFormed(Search(s).value)
      && exists q: nat, l :: LeftmostFit(s, 0, q, l) && Search(s) == Some(GroupsOf(s, q, l))
  {
    FindFromIsLeftmost(s, 0);
    match FindFrom(s, 0)
    case None =>
    case Some((q, l)) =>
      FitGroupsWellFormed(s, q, l);
      assert LeftmostFit(s, 0, q, l);
  }

  /** A text the pattern matches from its first character yields the
      groups of that match. */
  lemma SearchMatchAtStart(s: string, l: Layout)
    requires Fits(s, 0, l)
    ensures Search(s) == Some(GroupsOf(s, 0, l))
  {
    ScanAtFindsEveryFit(s, 0, l);
    assert FindFrom(s, 0) == Some((0, l));
  }
}

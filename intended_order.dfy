/** The order the selection evidently intends: newest first, with the
    records that have no date after every dated one. As written, the sort
    key puts the naive `datetime.min` beside aware dates and the sort
    raises on a list holding both (`Selector.Select`). The key that gives
    the intended order without that comparison is the pair (has a date,
    date): pairs compare by their first field, so a dated record ranks above
    every undated one, and two dates or two `datetime.min` values are
    compared only with each other. */
module IntendedOrder {
  import opened Wrappers
  import opened Calendar
  import opened DateNormalizer
  import opened Extractor
  import opened Links
  import opened Selector

  /** The rank every undated record shares: below the instant of every
      valid date. */
  const UndatedRank := 0

  /** The rank of a record under the key (has a date, date). */
  function DatedFirstRank(a: Article): int {
    if a.published.Some? then Rank(a) else UndatedRank
  }

  /** Every valid date lies after the rank of the undated records. */
  lemma ValidInstantAboveUndated(t: DateTime)
    requires Valid(t)
    ensures Instant(t) > UndatedRank
  {
    if t.year > 1 {
      YearsGrow(1, t.year);
      DaysInYear(1);
    }
    if t.month > 1 {
      DaysBeforeMonthGrows(t.year, 1, t.month);
    }
    assert Ordinal(t) >= 1;
    var hours := Ordinal(t) * 24 + t.hour - OffsetHours(t);
    assert hours >= 1;
    assert (hours * 60 + t.minute) * 60 >= 3600;
  }

  function DecorateDatedFirst(s: seq<Article>): (r: seq<Keyed>)
    ensures |r| == |s|
    ensures forall i :: 0 <= i < |s| ==> r[i] == Keyed(DatedFirstRank(s[i]), s[i])
  {
    seq(|s|, i requires 0 <= i < |s| => Keyed(DatedFirstRank(s[i]), s[i]))
  }

  /** The records sorted newest first under the intended key, stably. */
  function IntendedSortedByDate(s: seq<Article>): seq<Article> {
    Undecorate(SortNewestFirst(DecorateDatedFirst(s)))
  }

  /** The records the feed would receive under the intended key. */
  function IntendedSelection(s: seq<Article>): seq<Article> {
    FeedPrefix(IntendedSortedByDate(s))
  }

  /** Dates as the extractor produces them, wherever there is one. */
  predicate DatesAsExtracted(s: seq<Article>) {
    forall i :: 0 <= i < |s| && s[i].published.Some? ==> ExtractedDate(s[i])
  }

  /** Every undated record comes after every dated one, and the dates, as
      the extractor produces them, run from the newest to the oldest. */
  predicate DatedFirstByDate(t: seq<Article>) {
    forall i, j :: 0 <= i < j < |t| && t[j].published.Some? ==>
      ExtractedDate(t[i]) && ExtractedDate(t[j]) && !FieldsBefore(t[i].published.value, t[j].published.value)
  }

  /** The number of records that carry a date. */
  function DatedCount(s: seq<Article>): (n: nat)
    ensures n <= |s|
    decreases |s|
  {
    if |s| == 0 then 0
    else DatedCount(s[..|s| - 1]) + (if s[|s| - 1].published.Some? then 1 else 0)
  }

  /** The records that carry no date, in their order in `s`. */
  function Undated(s: seq<Article>): (r: seq<Article>)
    ensures |r| <= |s|
    decreases |s|
  {
    if |s| == 0 then []
    else Undated(s[..|s| - 1]) + (if s[|s| - 1].published.None? then [s[|s| - 1]] else [])
  }

  /** Appending one record adds its date, if any, to the count. */
  lemma CountSnoc(t: seq<Keyed>, y: Keyed)
    ensures DatedCount(Undecorate(t + [y])) == DatedCount(Undecorate(t)) + (if y.article.published.Some? then 1 else 0)
  {
    assert Undecorate(t + [y])[..|t|] == Undecorate(t);
  }

  /** Inserting a record adds its date, if any, to the count. */
  lemma {:induction false} InsertKeepsDatedCount(x: Keyed, t: seq<Keyed>)
    ensures DatedCount(Undecorate(InsertByDate(x, t)))
      == DatedCount(Undecorate(t)) + (if x.article.published.Some? then 1 else 0)
    decreases |t|
  {
    if |t| == 0 || t[|t| - 1].rank >= x.rank {
      CountSnoc(t, x);
    } else {
      var init, last := t[..|t| - 1], t[|t| - 1];
      InsertKeepsDatedCount(x, init);
      CountSnoc(InsertByDate(x, init), last);
      assert t == init + [last];
      CountSnoc(init, last);
    }
  }

  /** Sorting keeps the number of dated records. */
  lemma {:induction false} SortKeepsDatedCount(s: seq<Keyed>)
    ensures DatedCount(Undecorate(SortNewestFirst(s))) == DatedCount(Undecorate(s))
    decreases |s|
  {
    if |s| > 0 {
      var init, last := s[..|s| - 1], s[|s| - 1];
      SortKeepsDatedCount(init);
      InsertKeepsDatedCount(last, SortNewestFirst(init));
      assert s == init + [last];
      CountSnoc(init, last);
    }
  }

  /** In a list whose dated records all come before its undated ones, the
      dated records are exactly the first `DatedCount` of them. */
  lemma {:induction false} DatedFormPrefix(t: seq<Article>)
    requires forall i, j :: 0 <= i < j < |t| && t[j].published.Some? ==> t[i].published.Some?
    ensures forall i :: 0 <= i < |t| ==> (t[i].published.Some? <==> i < DatedCount(t))
    decreases |t|
  {
    if |t| > 0 {
      var init := t[..|t| - 1];
      forall i, j | 0 <= i < j < |init| && init[j].published.Some? ensures init[i].published.Some? {
        assert init[i] == t[i] && init[j] == t[j];
      }
      DatedFormPrefix(init);
      if t[|t| - 1].published.Some? && |init| > 0 {
        assert init[|init| - 1].published.Some?;
      }
    }
  }

  /** The decorated list sorted under the intended key: a newest-first
      arrangement of the input whose every rank is its record's own. */
  lemma SortedDatedFirstKeys(s: seq<Article>, i: nat)
    requires i < |s|
    ensures SortNewestFirst(DecorateDatedFirst(s))[i].rank == DatedFirstRank(SortNewestFirst(DecorateDatedFirst(s))[i].article)
    ensures SortNewestFirst(DecorateDatedFirst(s))[i].article in s
  {
    var d := DecorateDatedFirst(s);
    var k := SortNewestFirst(d);
    SortIsOrderedPermutation(d);
    assert k[i] in multiset(d);
    var p :| 0 <= p < |d| && d[p] == k[i];
  }

  /** Under the intended key the sorted list holds exactly the input
      records, every undated record comes after every dated one, and the
      dated records run from the newest date to the oldest. */
  lemma IntendedSortPutsUndatedLast(s: seq<Article>)
    requires DatesAsExtracted(s)
    ensures multiset(IntendedSortedByDate(s)) == multiset(s)
    ensures DatedCount(IntendedSortedByDate(s)) == DatedCount(s)
    ensures DatedFirstByDate(IntendedSortedByDate(s))
  {
    var d := DecorateDatedFirst(s);
    var k := SortNewestFirst(d);
    var t := IntendedSortedByDate(s);
    SortIsOrderedPermutation(d);
    SortKeepsArticles(d);
    SortKeepsDatedCount(d);
    assert Undecorate(d) == s;
    forall i, j | 0 <= i < j < |t| && t[j].published.Some?
      ensures ExtractedDate(t[i]) && ExtractedDate(t[j]) && !FieldsBefore(t[i].published.value, t[j].published.value)
    {
      SortedDatedFirstKeys(s, i);
      SortedDatedFirstKeys(s, j);
      ValidInstantAboveUndated(t[j].published.value);
      assert k[i].rank >= k[j].rank;
      RankedNoLowerNotBefore(t[i], t[j]);
    }
  }

  /** The records of rank `UndatedRank` in a decorated list whose ranks
      are zero exactly for its undated records are its undated records. */
  lemma {:induction false} UndatedRankIsUndated(k: seq<Keyed>)
    requires forall i :: 0 <= i < |k| ==> (k[i].rank == UndatedRank <==> k[i].article.published.None?)
    ensures Undecorate(WithRank(k, UndatedRank)) == Undated(Undecorate(k))
    decreases |k|
  {
    if |k| > 0 {
      var init, last := k[..|k| - 1], k[|k| - 1];
      UndatedRankIsUndated(init);
      assert Undecorate(k)[..|k| - 1] == Undecorate(init);
      UndecorateAppend(WithRank(init, UndatedRank), if last.rank == UndatedRank then [last] else []);
    }
  }

  /** Under the intended key the undated records keep their document
      order, as the stable sort leaves records of equal key. */
  lemma IntendedSortKeepsUndatedOrder(s: seq<Article>)
    requires DatesAsExtracted(s)
    ensures Undated(IntendedSortedByDate(s)) == Undated(s)
  {
    var d := DecorateDatedFirst(s);
    var k := SortNewestFirst(d);
    SortIsStable(d, UndatedRank);
    forall i | 0 <= i < |d| ensures d[i].rank == UndatedRank <==> d[i].article.published.None? {
      if s[i].published.Some? {
        ValidInstantAboveUndated(s[i].published.value);
      }
    }
    forall i | 0 <= i < |k| ensures k[i].rank == UndatedRank <==> k[i].article.published.None? {
      SortedDatedFirstKeys(s, i);
      var p :| 0 <= p < |s| && s[p] == k[i].article;
      if s[p].published.Some? {
        ValidInstantAboveUndated(s[p].published.value);
      }
    }
    UndatedRankIsUndated(d);
    UndatedRankIsUndated(k);
    assert Undecorate(d) == s;
  }

  /** The feed under the intended key: the first four records (all of them
      when there are fewer), its first positions taken by dated records as
      far as there are any, newest first, and the undated records after
      them. With four dated records among six candidates, it is those four. */
  lemma IntendedFeed(s: seq<Article>)
    requires DatesAsExtracted(s)
    ensures |IntendedSelection(s)| == if |s| < FeedSize then |s| else FeedSize
    ensures forall i :: 0 <= i < |IntendedSelection(s)| ==>
      (IntendedSelection(s)[i].published.Some? <==> i < DatedCount(s))
    ensures DatedFirstByDate(IntendedSelection(s))
  {
    var t := IntendedSortedByDate(s);
    IntendedSortPutsUndatedLast(s);
    assert forall i, j :: 0 <= i < j < |t| && t[j].published.Some? ==> t[i].published.Some?;
    DatedFormPrefix(t);
    assert DatedCount(t) == DatedCount(s);
    DatedFirstPrefix(t, |IntendedSelection(s)|, DatedCount(s));
  }

  /** A head of a list with its dated records first, newest first, keeps
      both properties. */
  lemma DatedFirstPrefix(t: seq<Article>, n: nat, c: nat)
    requires n <= |t|
    requires forall i :: 0 <= i < |t| ==> (t[i].published.Some? <==> i < c)
    requires DatedFirstByDate(t)
    ensures forall i :: 0 <= i < n ==> (t[..n][i].published.Some? <==> i < c)
    ensures DatedFirstByDate(t[..n])
  {
    forall i | 0 <= i < n ensures t[..n][i] == t[i] {
    }
  }

  /** The scraper as written on one dated and one undated record: the list
      is mixed, so the sort raises and no feed is written, where the
      intended key lists the dated record first. */
  lemma UndatedRecordBreaksFeed()
    ensures var dated := Article("Umrah", BlogUrl, NoContent, None, Some(DateTime(2025, 11, 4, 10, 0, 53, Some(7))));
      var undated := Article("Haji", BlogUrl, NoContent, None, None);
      && Mixed([undated, dated])
      && IntendedSelection([undated, dated]) == [dated, undated]
  {
    var dated := Article("Umrah", BlogUrl, NoContent, None, Some(DateTime(2025, 11, 4, 10, 0, 53, Some(7))));
    var undated := Article("Haji", BlogUrl, NoContent, None, None);
    var s := [undated, dated];
    assert s[1].published.Some? && s[0].published.None?;
    assert ExtractedDate(dated);
    IntendedFeed(s);
    IntendedSortPutsUndatedLast(s);
    var feed := IntendedSelection(s);
    assert feed == IntendedSortedByDate(s);
    assert feed[0] in multiset(s) && feed[1] in multiset(s);
  }
}

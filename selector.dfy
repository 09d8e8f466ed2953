/** Selection: the records sorted newest first, stably, then cut to the
    first four. The sort key is the record's date, or the naive
    `datetime.min` when it has none. The extracted dates are aware (UTC+7)
    while `datetime.min` is naive, and Python refuses to order an aware
    value against a naive one: a list holding both kinds makes the sort
    raise `TypeError`, which the model returns as a failure. */
module Selector {
  import opened Wrappers
  import opened Calendar
  import opened DateNormalizer
  import opened Extractor

  /** The number of records the feed keeps. */
  const FeedSize := 4

  /** Why selection fails: a dated and an undated record met in the sort. */
  datatype SortError = NaiveAwareComparison

  /** The sort key of a record. */
  function SortKey(a: Article): DateTime {
    if a.published.Some? then a.published.value else NaiveMin
  }

  /** Where the key lies on the time line. Aware keys compare by the
      instant they denote; within a list that is all naive every key is
      `datetime.min`, so they are all equal. */
  function Rank(a: Article): int {
    Instant(SortKey(a))
  }

  /** The list holds a dated and an undated record. */
  predicate Mixed(s: seq<Article>) {
    exists i, j :: 0 <= i < |s| && 0 <= j < |s| && s[i].published.Some? && s[j].published.None?
  }

  /** For the dates the extractor produces (valid, all at UTC+7) the rank
      orders records exactly as their dates compare field by field, and two
      records rank the same only when their dates are equal. */
  lemma RankOrdersLikeDates(a: Article, b: Article)
    requires a.published.Some? && b.published.Some?
    requires Valid(a.published.value) && Valid(b.published.value)
    requires a.published.value.utcOffsetHours == b.published.value.utcOffsetHours
    ensures Rank(a) < Rank(b) <==> FieldsBefore(a.published.value, b.published.value)
    ensures Rank(a) == Rank(b) <==> a.published == b.published
  {
    InstantOrdersLikeFields(a.published.value, b.published.value);
  }

  /** A record with its key computed, as `list.sort(key=...)` computes
      every key once before sorting. */
  datatype Keyed = Keyed(rank: int, article: Article)

  function Decorate(s: seq<Article>): (r: seq<Keyed>)
    ensures |r| == |s|
    ensures forall i :: 0 <= i < |s| ==> r[i] == Keyed(Rank(s[i]), s[i])
  {
    seq(|s|, i requires 0 <= i < |s| => Keyed(Rank(s[i]), s[i]))
  }

  function Undecorate(s: seq<Keyed>): (r: seq<Article>)
    ensures |r| == |s|
    ensures forall i :: 0 <= i < |s| ==> r[i] == s[i].article
  {
    seq(|s|, i requires 0 <= i < |s| => s[i].article)
  }

  /** Newest first: ranks never increase along the list. */
  predicate NewestFirst(s: seq<Keyed>) {
    forall i, j :: 0 <= i < j < |s| ==> s[i].rank >= s[j].rank
  }

  /** The records of rank `k`, in their order in `s`. */
  function WithRank(s: seq<Keyed>, k: int): (r: seq<Keyed>)
    ensures |r| <= |s|
    decreases |s|
  {
    if |s| == 0 then []
    else WithRank(s[..|s| - 1], k) + (if s[|s| - 1].rank == k then [s[|s| - 1]] else [])
  }

  /** The records of rank `k` are records of `s`, of rank `k`. */
  lemma {:induction false} WithRankMembers(s: seq<Keyed>, k: int, x: Keyed)
    requires x in WithRank(s, k)
    ensures x in s && x.rank == k
    decreases |s|
  {
    var init, last := s[..|s| - 1], s[|s| - 1];
    if x != last || last.rank != k {
      assert x in WithRank(init, k);
      WithRankMembers(init, k, x);
      var m :| 0 <= m < |init| && init[m] == x;
      assert s[m] == x;
    }
  }

  /** `x` placed into `t` after every record at least as new as `x`. */
  function InsertByDate(x: Keyed, t: seq<Keyed>): (r: seq<Keyed>)
    ensures |r| == |t| + 1
    decreases |t|
  {
    if |t| == 0 || t[|t| - 1].rank >= x.rank then t + [x]
    else InsertByDate(x, t[..|t| - 1]) + [t[|t| - 1]]
  }

  /** Inserting adds `x` and loses nothing. */
  lemma {:induction false} InsertIsPermutation(x: Keyed, t: seq<Keyed>)
    ensures multiset(InsertByDate(x, t)) == multiset(t) + multiset{x}
    decreases |t|
  {
    if |t| > 0 && t[|t| - 1].rank < x.rank {
      InsertIsPermutation(x, t[..|t| - 1]);
      assert t == t[..|t| - 1] + [t[|t| - 1]];
    }
  }

  /** Inserting into a newest-first list keeps it newest first. */
  lemma {:induction false} InsertKeepsNewestFirst(x: Keyed, t: seq<Keyed>)
    requires NewestFirst(t)
    ensures NewestFirst(InsertByDate(x, t))
    decreases |t|
  {
    if |t| > 0 && t[|t| - 1].rank < x.rank {
      var init, last := t[..|t| - 1], t[|t| - 1];
      InsertKeepsNewestFirst(x, init);
      InsertIsPermutation(x, init);
      var rest := InsertByDate(x, init);
      forall i | 0 <= i < |rest| ensures rest[i].rank >= last.rank {
        var y := rest[i];
        assert y in multiset(rest);
        if y != x {
          assert y in init;
          var m :| 0 <= m < |init| && init[m] == y;
          assert t[m] == y;
        }
      }
      assert InsertByDate(x, t) == rest + [last];
    }
  }

  /** The stable sort, newest first: each record in turn inserted after
      the records before it that are at least as new. */
  function SortNewestFirst(s: seq<Keyed>): (r: seq<Keyed>)
    ensures |r| == |s|
    decreases |s|
  {
    if |s| == 0 then [] else InsertByDate(s[|s| - 1], SortNewestFirst(s[..|s| - 1]))
  }

  /** The sort yields a newest-first arrangement of its input. */
  lemma {:induction false} SortIsOrderedPermutation(s: seq<Keyed>)
    ensures multiset(SortNewestFirst(s)) == multiset(s)
    ensures NewestFirst(SortNewestFirst(s))
    decreases |s|
  {
    if |s| > 0 {
      var init, last := s[..|s| - 1], s[|s| - 1];
      SortIsOrderedPermutation(init);
      InsertIsPermutation(last, SortNewestFirst(init));
      InsertKeepsNewestFirst(last, SortNewestFirst(init));
      assert s == init + [last];
    }
  }

  /** Inserting keeps the records of each rank in order, `x` after those
      of its rank. */
  lemma {:induction false} InsertKeepsRankOrder(x: Keyed, t: seq<Keyed>, k: int)
    ensures WithRank(InsertByDate(x, t), k) == WithRank(t, k) + (if x.rank == k then [x] else [])
    decreases |t|
  {
    var r := InsertByDate(x, t);
    if |t| == 0 || t[|t| - 1].rank >= x.rank {
      assert r[..|r| - 1] == t;
    } else {
      var rest := InsertByDate(x, t[..|t| - 1]);
      InsertKeepsRankOrder(x, t[..|t| - 1], k);
      assert r[..|r| - 1] == rest;
    }
  }

  /** The sort is stable: records of equal rank keep their input order. */
  lemma {:induction false} SortIsStable(s: seq<Keyed>, k: int)
    ensures WithRank(SortNewestFirst(s), k) == WithRank(s, k)
    decreases |s|
  {
    if |s| > 0 {
      var init, last := s[..|s| - 1], s[|s| - 1];
      SortIsStable(init, k);
      InsertKeepsRankOrder(last, SortNewestFirst(init), k);
    }
  }

  /** A record of a newest-first list is no older than its last record. */
  lemma LastIsOldest(v: seq<Keyed>, x: Keyed)
    requires NewestFirst(v) && x in v
    ensures x.rank >= v[|v| - 1].rank
  {
    var m :| 0 <= m < |v| && v[m] == x;
  }

  /** Every record is among the records of its own rank. */
  lemma {:induction false} InOwnRank(s: seq<Keyed>, x: Keyed)
    requires x in s
    ensures x in WithRank(s, x.rank)
    decreases |s|
  {
    if s[|s| - 1] != x {
      assert x in s[..|s| - 1] by {
        var m :| 0 <= m < |s| && s[m] == x;
        assert s[..|s| - 1][m] == x;
      }
      InOwnRank(s[..|s| - 1], x);
    }
  }

  /** Two newest-first lists with the same records of each rank end with
      records of the same rank. */
  lemma SameLast(u: seq<Keyed>, v: seq<Keyed>)
    requires |u| > 0 && |v| > 0
    requires NewestFirst(u) && NewestFirst(v)
    requires forall k :: WithRank(u, k) == WithRank(v, k)
    ensures u[|u| - 1].rank == v[|v| - 1].rank
  {
    var a, b := u[|u| - 1], v[|v| - 1];
    InOwnRank(u, a);
    WithRankMembers(v, a.rank, a);
    LastIsOldest(v, a);
    InOwnRank(v, b);
    WithRankMembers(u, b.rank, b);
    LastIsOldest(u, b);
  }

  /** Appending a record adds it to the records of its rank only. */
  lemma WithRankSnoc(s: seq<Keyed>, x: Keyed, k: int)
    ensures WithRank(s + [x], k) == WithRank(s, k) + (if x.rank == k then [x] else [])
  {
    assert (s + [x])[..|s|] == s;
  }

  /** Two lists that agree once a record is appended to each agree before. */
  lemma SnocParts(x: seq<Keyed>, a: Keyed, y: seq<Keyed>, b: Keyed)
    requires x + [a] == y + [b]
    ensures x == y && a == b
  {
    assert a == (x + [a])[|x|] && b == (y + [b])[|y|];
    assert x == (x + [a])[..|x|] && y == (y + [b])[..|y|];
  }

  /** Two such lists ending with the same rank end with the same record,
      and agree rank by rank without it. */
  lemma DropLast(u: seq<Keyed>, a: Keyed, v: seq<Keyed>, b: Keyed)
    requires a.rank == b.rank
    requires forall k :: WithRank(u + [a], k) == WithRank(v + [b], k)
    ensures a == b
    ensures forall k :: WithRank(u, k) == WithRank(v, k)
  {
    WithRankSnoc(u, a, a.rank);
    WithRankSnoc(v, b, a.rank);
    SnocParts(WithRank(u, a.rank), a, WithRank(v, a.rank), b);
    forall k ensures WithRank(u, k) == WithRank(v, k) {
      WithRankSnoc(u, a, k);
      WithRankSnoc(v, b, k);
      assert WithRank(u + [a], k) == WithRank(v + [b], k);
      if k == a.rank {
        SnocParts(WithRank(u, k), a, WithRank(v, k), b);
      } else {
        assert WithRank(u, k) + [] == WithRank(u, k) && WithRank(v, k) + [] == WithRank(v, k);
      }
    }
  }

  /** Only the empty list has no records of any rank. */
  lemma NoRankNoRecords(u: seq<Keyed>, v: seq<Keyed>)
    requires |u| == 0
    requires forall k :: WithRank(u, k) == WithRank(v, k)
    ensures |v| == 0
  {
    if |v| > 0 {
      InOwnRank(v, v[|v| - 1]);
      assert false;
    }
  }

  /** Two lists in newest-first order with the same records of each rank,
      in the same order, are the same list. */
  lemma {:induction false} SameRankOrderSameList(u: seq<Keyed>, v: seq<Keyed>)
    requires NewestFirst(u) && NewestFirst(v)
    requires forall k :: WithRank(u, k) == WithRank(v, k)
    ensures u == v
    decreases |u| + |v|
  {
    if |u| == 0 {
      NoRankNoRecords(u, v);
    } else if |v| == 0 {
      NoRankNoRecords(v, u);
    } else {
      SameLast(u, v);
      var u', v' := u[..|u| - 1], v[..|v| - 1];
      assert u == u' + [u[|u| - 1]] && v == v' + [v[|v| - 1]];
      DropLast(u', u[|u| - 1], v', v[|v| - 1]);
      assert NewestFirst(u') && NewestFirst(v');
      SameRankOrderSameList(u', v');
    }
  }

  /** The sort is the only stable newest-first arrangement: any list in
      newest-first order that keeps, for every rank, the records of that
      rank in their input order is `SortNewestFirst` of the input. Python's
      stable `list.sort(reverse=True)` therefore yields exactly it. */
  lemma StableSortIsUnique(s: seq<Keyed>, u: seq<Keyed>)
    requires NewestFirst(u)
    requires forall k :: WithRank(u, k) == WithRank(s, k)
    ensures u == SortNewestFirst(s)
  {
    forall k ensures WithRank(u, k) == WithRank(SortNewestFirst(s), k) {
      SortIsStable(s, k);
    }
    SortIsOrderedPermutation(s);
    SameRankOrderSameList(u, SortNewestFirst(s));
  }

  /** A list whose records all rank the same, such as a list of undated
      records (all `datetime.min`), is left as it is. */
  lemma EqualRanksKeepOrder(s: seq<Keyed>)
    requires forall i, j :: 0 <= i < |s| && 0 <= j < |s| ==> s[i].rank == s[j].rank
    ensures SortNewestFirst(s) == s
  {
    StableSortIsUnique(s, s);
  }

  /** The first `FeedSize` records, or all of them when there are fewer. */
  function FeedPrefix<T>(s: seq<T>): (r: seq<T>)
    ensures |r| == if |s| < FeedSize then |s| else FeedSize
    ensures r == s[..|r|]
  {
    s[..if |s| < FeedSize then |s| else FeedSize]
  }

  /** The records sorted newest first, stably: keys computed once, the
      decorated list sorted, the keys dropped again. */
  function SortedByDate(s: seq<Article>): seq<Article> {
    Undecorate(SortNewestFirst(Decorate(s)))
  }

  /** The records the feed receives. */
  function Selection(s: seq<Article>): seq<Article> {
    FeedPrefix(SortedByDate(s))
  }

  lemma UndecorateAppend(a: seq<Keyed>, b: seq<Keyed>)
    ensures Undecorate(a + b) == Undecorate(a) + Undecorate(b)
  {
  }

  /** Inserting a record adds its article and loses none. */
  lemma {:induction false} InsertKeepsArticles(x: Keyed, t: seq<Keyed>)
    ensures multiset(Undecorate(InsertByDate(x, t))) == multiset(Undecorate(t)) + multiset{x.article}
    decreases |t|
  {
    if |t| == 0 || t[|t| - 1].rank >= x.rank {
      UndecorateAppend(t, [x]);
    } else {
      var init, last := t[..|t| - 1], t[|t| - 1];
      InsertKeepsArticles(x, init);
      UndecorateAppend(InsertByDate(x, init), [last]);
      assert t == init + [last];
      UndecorateAppend(init, [last]);
    }
  }

  /** Sorting loses no article and adds none. */
  lemma {:induction false} SortKeepsArticles(s: seq<Keyed>)
    ensures multiset(Undecorate(SortNewestFirst(s))) == multiset(Undecorate(s))
    decreases |s|
  {
    if |s| > 0 {
      var init, last := s[..|s| - 1], s[|s| - 1];
      SortKeepsArticles(init);
      InsertKeepsArticles(last, SortNewestFirst(init));
      assert s == init + [last];
      UndecorateAppend(init, [last]);
    }
  }

  /** Every decorated record of the sorted list carries its own rank. */
  lemma SortedKeysMatch(s: seq<Article>, i: nat)
    requires i < |s|
    ensures SortNewestFirst(Decorate(s))[i].rank == Rank(SortNewestFirst(Decorate(s))[i].article)
  {
    var t := SortNewestFirst(Decorate(s));
    SortIsOrderedPermutation(Decorate(s));
    assert t[i] in multiset(Decorate(s));
  }

  /** The sorted list holds exactly the input records, and ranks never
      increase along it. */
  lemma SortedByDateIsNewestFirst(s: seq<Article>)
    ensures multiset(SortedByDate(s)) == multiset(s)
    ensures forall i, j :: 0 <= i < j < |SortedByDate(s)| ==> Rank(SortedByDate(s)[i]) >= Rank(SortedByDate(s)[j])
  {
    var t := SortNewestFirst(Decorate(s));
    SortIsOrderedPermutation(Decorate(s));
    SortKeepsArticles(Decorate(s));
    assert Undecorate(Decorate(s)) == s;
    forall i, j | 0 <= i < j < |SortedByDate(s)| ensures Rank(SortedByDate(s)[i]) >= Rank(SortedByDate(s)[j]) {
      SortedKeysMatch(s, i);
      SortedKeysMatch(s, j);
    }
  }

  /** The feed holds the first four records of the sorted list (all of them
      when there are fewer), and no record left out is newer than a record
      kept. */
  lemma SelectionKeepsNewest(s: seq<Article>)
    ensures |Selection(s)| == if |s| < FeedSize then |s| else FeedSize
    ensures Selection(s) == SortedByDate(s)[..|Selection(s)|]
    ensures multiset(Selection(s)) <= multiset(s)
    ensures forall i, j :: 0 <= i < |Selection(s)| <= j < |s| ==> Rank(SortedByDate(s)[i]) >= Rank(SortedByDate(s)[j])
  {
    var sorted := SortedByDate(s);
    SortedByDateIsNewestFirst(s);
    var n := |Selection(s)|;
    assert sorted == sorted[..n] + sorted[n..];
  }

  /** A list with no dates at all keeps document order: every key is
      `datetime.min`, so the feed takes the first four records as found. */
  lemma UndatedKeepDocumentOrder(s: seq<Article>)
    requires forall i :: 0 <= i < |s| ==> s[i].published.None?
    ensures SortedByDate(s) == s
    ensures Selection(s) == s[..|Selection(s)|]
  {
    EqualRanksKeepOrder(Decorate(s));
    assert Undecorate(Decorate(s)) == s;
  }

  /** Dates as the extractor produces them: present, valid, at UTC+7. */
  predicate ExtractedDate(a: Article) {
    a.published.Some? && Valid(a.published.value) && a.published.value.utcOffsetHours == Some(JakartaOffsetHours)
  }

  /** Of two records with such dates, the one ranked no lower is not dated
      before the other. */
  lemma RankedNoLowerNotBefore(a: Article, b: Article)
    requires ExtractedDate(a) && ExtractedDate(b)
    requires Rank(a) >= Rank(b)
    ensures !FieldsBefore(a.published.value, b.published.value)
  {
    RankOrdersLikeDates(a, b);
  }

  /** A list whose records all carry dates as the extractor produces them
      is sorted by date: no record is followed by a strictly newer one. */
  lemma DatedSortByDate(s: seq<Article>)
    requires forall i :: 0 <= i < |s| ==> ExtractedDate(s[i])
    ensures forall i :: 0 <= i < |SortedByDate(s)| ==> ExtractedDate(SortedByDate(s)[i])
    ensures forall i, j :: 0 <= i < j < |SortedByDate(s)| ==>
      ExtractedDate(SortedByDate(s)[i]) && ExtractedDate(SortedByDate(s)[j]) &&
      !FieldsBefore(SortedByDate(s)[i].published.value, SortedByDate(s)[j].published.value)
  {
    var sorted := SortedByDate(s);
    SortedByDateIsNewestFirst(s);
    forall i | 0 <= i < |sorted| ensures ExtractedDate(sorted[i]) {
      assert sorted[i] in multiset(s);
      var p :| 0 <= p < |s| && s[p] == sorted[i];
    }
    forall i, j | 0 <= i < j < |sorted|
      ensures !FieldsBefore(sorted[i].published.value, sorted[j].published.value)
    {
      RankedNoLowerNotBefore(sorted[i], sorted[j]);
    }
  }

  /** When every record the extractor built on a page carries a date, the
      feed lists them by date, newest first. */
  lemma ExtractedFeedIsByDate(page: Page)
    requires forall k :: 0 <= k < |Extracted(page, |page.titleDivs|)| ==>
      Extracted(page, |page.titleDivs|)[k].published.Some?
    ensures !Mixed(Extracted(page, |page.titleDivs|))
    ensures forall i, j :: 0 <= i < j < |Selection(Extracted(page, |page.titleDivs|))| ==>
      var feed := Selection(Extracted(page, |page.titleDivs|));
      ExtractedDate(feed[i]) && ExtractedDate(feed[j]) &&
      !FieldsBefore(feed[i].published.value, feed[j].published.value)
  {
    var s := Extracted(page, |page.titleDivs|);
    ExtractedDatesAreJakarta(page, |page.titleDivs|);
    DatedSortByDate(s);
    SelectionKeepsNewest(s);
  }

  /** Where the insertion puts `x`: after the first `j` records, when the
      `j`-th is at least as new as `x` and every later one is older. */
  lemma {:induction false} InsertLandsAt(x: Keyed, t: seq<Keyed>, j: nat)
    requires j <= |t|
    requires j == 0 || t[j - 1].rank >= x.rank
    requires forall k :: j <= k < |t| ==> t[k].rank < x.rank
    ensures InsertByDate(x, t) == t[..j] + [x] + t[j..]
    decreases |t|
  {
    if |t| == j {
      assert t[..j] == t;
    } else {
      var init := t[..|t| - 1];
      InsertLandsAt(x, init, j);
      assert init[..j] == t[..j];
      assert t[j..] == init[j..] + [t[|t| - 1]];
    }
  }

  /** One pass of the insertion sort: `a[i]` moved down past the records
      of lower rank in the sorted part `a[..i]`. */
  method InsertInPlace(a: array<Keyed>, i: nat)
    requires i < a.Length
    modifies a
    ensures a[..i + 1] == InsertByDate(old(a[i]), old(a[..i]))
    ensures a[i + 1..] == old(a[i + 1..])
  {
    var x := a[i];
    ghost var sorted := a[..i];
    var j := i;
    while j > 0 && a[j - 1].rank < x.rank
      invariant 0 <= j <= i
      invariant a[..j] == sorted[..j]
      invariant a[j + 1..i + 1] == sorted[j..i]
      invariant a[i + 1..] == old(a[i + 1..])
      invariant forall k :: j <= k < i ==> sorted[k].rank < x.rank
      decreases j
    {
      a[j] := a[j - 1];
      j := j - 1;
    }
    a[j] := x;
    InsertLandsAt(x, sorted, j);
    assert a[..i + 1] == sorted[..j] + [x] + sorted[j..i];
  }

  /** `articles.sort(key=..., reverse=True)` on the decorated list held in
      `a`: an insertion sort that moves a record only past records of
      lower rank, so that equal ranks keep their order. */
  method SortNewestFirstInPlace(a: array<Keyed>)
    modifies a
    ensures a[..] == SortNewestFirst(old(a[..]))
  {
    ghost var input := a[..];
    for i := 0 to a.Length
      invariant a[..i] == SortNewestFirst(input[..i])
      invariant a[i..] == input[i..]
    {
      assert input[..i + 1][..i] == input[..i];
      assert a[i] == input[i];
      InsertInPlace(a, i);
      assert a[i + 1..] == input[i + 1..];
    }
    assert a[..] == a[..a.Length];
    assert input == input[..a.Length];
  }

  /** Sorting and truncation: Failure when the list mixes dated and undated
      records, and otherwise the first four records of the stable
      newest-first order (all of them when there are fewer). */
  method Select(articles: seq<Article>) returns (r: Result<seq<Article>, SortError>)
    ensures r.Failure? <==> Mixed(articles)
    ensures r.Success? ==> r.value == Selection(articles)
  {
    if Mixed(articles) {
      return Failure(NaiveAwareComparison);
    }
    var keyed := Decorate(articles);
    var a := new Keyed[|keyed|](i requires 0 <= i < |keyed| => keyed[i]);
    assert a[..] == keyed;
    SortNewestFirstInPlace(a);
    var n := if a.Length < FeedSize then a.Length else FeedSize;
    var top := a[..n];
    r := Success(Undecorate(top));
  }
}

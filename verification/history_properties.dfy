/** Properties of the history store: dedup-and-promote, the size bound, uniqueness
    of urls, the frequency ranking and idempotent deletion. */
module HistoryProperties {
  import opened Wrappers
  import opened Text
  import opened Seqs
  import opened Sorting
  import opened HistoryService

  /** A visit to a url absent from the list puts a first-visit record in front. */
  lemma PromoteFirstVisit(h: seq<HistoryItem>, url: string, title: string, now: nat)
    requires forall i :: 0 <= i < |h| ==> h[i].url != url
    ensures Promote(h, url, title, now) == [FirstVisit(url, title, now)] + h
  {
    assert IndexOfKey(h, UrlOf, url) == -1;
  }

  /** With unique urls, a visit to the url of `h[k]` moves its revisited record to the
      front and keeps every other record in order. */
  lemma PromoteRevisit(h: seq<HistoryItem>, k: nat, title: string, now: nat)
    requires k < |h| && KeysDistinct(h, UrlOf)
    ensures Promote(h, h[k].url, title, now) == [Revisited(h[k], title, now)] + WithoutKey(h, UrlOf, h[k].url)
  {
    var i := IndexOfKey(h, UrlOf, h[k].url);
    assert i == k;
    WithoutKeyIsRemoveAt(h, UrlOf, k);
  }

  /** A record of the stored list is a record of the list as read back. */
  lemma StoredInHistory(stored: Stored, i: nat)
    requires stored.Some? && i < |stored.value|
    ensures exists j :: 0 <= j < |GetHistory(stored)| && GetHistory(stored)[j] == stored.value[i]
  {
    var h := GetHistory(stored);
    assert stored.value[i] in h;
  }

  /** What `addHistory` writes for a url that is not excluded. */
  lemma AddHistoryWrites(stored: Stored, url: string, title: string, now: nat)
    requires !IsExcluded(url)
    ensures AddHistory(stored, url, title, now) == Some(Take(Promote(GetHistory(stored), url, title, now), MaxHistoryItems))
  {
  }

  /** A visit to a url absent from the history puts a new record, counted once, in
      front of the previous list, and the list is cut to `MaxHistoryItems`. */
  lemma AddHistoryFirstVisit(stored: Stored, url: string, title: string, now: nat)
    requires !IsExcluded(url)
    requires stored.Some? ==> forall i :: 0 <= i < |stored.value| ==> stored.value[i].url != url
    ensures AddHistory(stored, url, title, now).value
      == [HistoryItem(Decimal(now), url, if title == "" then url else title, now, 1)]
         + Take(GetHistory(stored), MaxHistoryItems - 1)
  {
    var h := GetHistory(stored);
    forall i | 0 <= i < |h|
      ensures h[i].url != url
    {
      assert h[i] in stored.value;
    }
    PromoteFirstVisit(h, url, title, now);
    AddHistoryWrites(stored, url, title, now);
    TakeCons(FirstVisit(url, title, now), h, MaxHistoryItems);
  }

  /** With unique urls, a revisit replaces the url's one record by its revisited form
      in front (visited now, counted once more, retitled only by a non-empty title);
      the other records follow in their previous order, cut to `MaxHistoryItems`. */
  lemma AddHistoryRevisit(stored: Stored, url: string, title: string, now: nat, i: nat)
    requires !IsExcluded(url)
    requires stored.Some? && KeysDistinct(stored.value, UrlOf)
    requires i < |stored.value| && stored.value[i].url == url
    ensures AddHistory(stored, url, title, now).value
      == [Revisited(stored.value[i], title, now)]
         + Take(WithoutKey(GetHistory(stored), UrlOf, url), MaxHistoryItems - 1)
  {
    var h := GetHistory(stored);
    PermutationKeepsKeysDistinct(stored.value, h, UrlOf);
    StoredInHistory(stored, i);
    var k :| 0 <= k < |h| && h[k] == stored.value[i];
    PromoteRevisit(h, k, title, now);
    AddHistoryWrites(stored, url, title, now);
    TakeCons(Revisited(h[k], title, now), WithoutKey(h, UrlOf, url), MaxHistoryItems);
  }

  /** A revisit keeps the length, up to the bound: the url's old record makes way for its new one. */
  lemma AddHistoryRevisitLength(stored: Stored, url: string, title: string, now: nat, i: nat)
    requires !IsExcluded(url)
    requires stored.Some? && KeysDistinct(stored.value, UrlOf)
    requires i < |stored.value| && stored.value[i].url == url
    ensures |AddHistory(stored, url, title, now).value|
      == if |stored.value| < MaxHistoryItems then |stored.value| else MaxHistoryItems
  {
    var h := GetHistory(stored);
    PermutationKeepsKeysDistinct(stored.value, h, UrlOf);
    StoredInHistory(stored, i);
    var k :| 0 <= k < |h| && h[k] == stored.value[i];
    WithoutKeyIsRemoveAt(h, UrlOf, k);
    AddHistoryRevisit(stored, url, title, now, i);
  }

  /** Recording a new url into a full history evicts exactly the oldest record. */
  lemma AddHistoryEvictsOldest(stored: Stored, url: string, title: string, now: nat)
    requires !IsExcluded(url)
    requires stored.Some? && |stored.value| >= MaxHistoryItems
    requires forall i :: 0 <= i < |stored.value| ==> stored.value[i].url != url
    ensures var r := AddHistory(stored, url, title, now).value;
      |r| == MaxHistoryItems && r[1..] == GetHistory(stored)[..MaxHistoryItems - 1]
  {
    AddHistoryFirstVisit(stored, url, title, now);
  }

  /** Urls that are unique in the history stay unique after a visit is recorded. */
  lemma AddHistoryKeepsUrlsDistinct(stored: Stored, url: string, title: string, now: nat)
    requires stored.Some? ==> KeysDistinct(stored.value, UrlOf)
    ensures var r := AddHistory(stored, url, title, now);
      r.Some? ==> KeysDistinct(r.value, UrlOf)
  {
    if !IsExcluded(url) {
      var h := GetHistory(stored);
      if stored.Some? {
        PermutationKeepsKeysDistinct(stored.value, h, UrlOf);
      }
      var k := IndexOfKey(h, UrlOf, url);
      var p := Promote(h, url, title, now);
      if k == -1 {
        PromoteFirstVisit(h, url, title, now);
        PrependKeepsKeysDistinct(p[0], h, UrlOf);
      } else {
        PromoteRevisit(h, k, title, now);
        FilterKeepsKeysDistinct(h, KeyIsNot(UrlOf, url), UrlOf);
        var rest := WithoutKey(h, UrlOf, url);
        PrependKeepsKeysDistinct(p[0], rest, UrlOf);
      }
      assert Take(p, MaxHistoryItems) <= p;
    }
  }

  /** Recording the same url twice, with a non-empty second title, leaves one record
      for it, in front, counted twice, visited at the second time and carrying the
      second title. */
  lemma RecordTwice(stored: Stored, url: string, title1: string, title2: string, t1: nat, t2: nat)
    requires !IsExcluded(url) && title2 != ""
    requires stored.Some? ==> KeysDistinct(stored.value, UrlOf)
    requires stored.Some? ==> forall i :: 0 <= i < |stored.value| ==> stored.value[i].url != url
    ensures var twice := AddHistory(AddHistory(stored, url, title1, t1), url, title2, t2).value;
      && twice[0].url == url && twice[0].visitCount == 2 && twice[0].title == title2
      && twice[0].visitTime == t2
      && forall i :: 0 < i < |twice| ==> twice[i].url != url
  {
    var once := AddHistory(stored, url, title1, t1);
    AddHistoryFirstVisit(stored, url, title1, t1);
    AddHistoryKeepsUrlsDistinct(stored, url, title1, t1);
    AddHistoryRevisit(once, url, title2, t2, 0);
    AddHistoryKeepsUrlsDistinct(once, url, title2, t2);
  }

  /** Deleting the same id twice gives the same list as deleting it once. */
  lemma DeleteHistoryItemIdempotent(stored: Stored, id: string)
    ensures DeleteHistoryItem(Some(DeleteHistoryItem(stored, id)), id) == DeleteHistoryItem(stored, id)
  {
    var once := DeleteHistoryItem(stored, id);
    SortedIsFixpoint(once, ByVisitTime);
    FilterIdempotent(GetHistory(stored), KeyIsNot(IdOf, id));
  }

  /** The frequent sites are the top of the ranking: a record visited more than once
      that is left out ranks at or below every record returned. */
  lemma FrequentSitesAreTop(stored: Stored, limit: int)
    ensures var h := GetHistory(stored);
      var r := GetFrequentSites(stored, limit);
      forall i, j :: 0 <= i < |r| && 0 <= j < |h| && h[j].visitCount > 1 && h[j] !in r ==>
        Precedes(ByFrequency(r[i]), ByFrequency(h[j]))
  {
    var h := GetHistory(stored);
    var ranked := RankedFrequent(h);
    var r := GetFrequentSites(stored, limit);
    forall j | 0 <= j < |h| && h[j].visitCount > 1 && h[j] !in r
      ensures forall i :: 0 <= i < |r| ==> Precedes(ByFrequency(r[i]), ByFrequency(h[j]))
    {
      PrefixRanksAboveRest(ranked, r, ByFrequency, h[j]);
    }
  }

  /** Searching for a recorded url, when that url is lower-case, trimmed and not blank,
      finds its record. */
  lemma SearchFindsOwnUrl(stored: Stored, i: nat)
    requires stored.Some? && i < |stored.value|
    requires var u := stored.value[i].url; ToLower(u) == u && Trim(u) == u && !AllWhitespace(u)
    ensures stored.value[i] in SearchHistory(stored, stored.value[i].url)
  {
    var x := stored.value[i];
    OwnUrlMatches(x.title, x.url);
    var h := GetHistory(stored);
    var j :| 0 <= j < |h| && h[j] == x;
  }

  /** A range covering every recorded visit time selects the whole history. */
  lemma WholeRangeKeepsAll(stored: Stored, start: int, end: int)
    requires stored.Some? ==> forall i :: 0 <= i < |stored.value| ==> start <= stored.value[i].visitTime <= end
    ensures GetHistoryByDate(stored, start, end) == GetHistory(stored)
  {
    var h := GetHistory(stored);
    forall j | 0 <= j < |h|
      ensures VisitedBetween(start, end)(h[j])
    {
      var i :| 0 <= i < |stored.value| && stored.value[i] == h[j];
    }
    FilterAllPass(h, VisitedBetween(start, end));
  }
}

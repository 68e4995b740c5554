/** The history store (`HistoryService`): a recency-ordered list of visits kept
    under one storage key, at most one record per url and at most
    `MaxHistoryItems` records after every recorded visit. */
module HistoryService {
  import opened Wrappers
  import opened Text
  import opened Seqs
  import opened Sorting

  datatype HistoryItem = HistoryItem(id: string, url: string, title: string, visitTime: int, visitCount: int)

  /** The history key: `None` when it is absent or its text does not parse to an array. */
  type Stored = Option<seq<HistoryItem>>

  const MaxHistoryItems: nat := 1000

  /** Visits to urls containing this host, the built-in search engine, are never recorded. */
  const SearchEngineHost: string := "thazhsearch.wuaze.com"

  function UrlOf(h: HistoryItem): string { h.url }
  function IdOf(h: HistoryItem): string { h.id }

  /** The sort key of `getHistory`: most recent `visitTime` first. */
  function ByVisitTime(h: HistoryItem): Rank { (h.visitTime, 0) }

  /** The sort key of `getFrequentSites`: most visits first, then most recent. */
  function ByFrequency(h: HistoryItem): Rank { (h.visitCount, h.visitTime) }

  /** The stored list, most recent first; an absent or unreadable key reads as empty. */
  function GetHistory(stored: Stored): (r: seq<HistoryItem>)
    ensures stored.None? ==> r == []
    ensures stored.Some? ==> multiset(r) == multiset(stored.value)
    ensures stored.Some? ==> forall i :: 0 <= i < |r| ==> r[i] in stored.value
    ensures stored.Some? ==> forall i :: 0 <= i < |stored.value| ==> stored.value[i] in r
    ensures SortedDesc(r, ByVisitTime)
  {
    if stored.Some? then
      var r := SortDesc(stored.value, ByVisitTime);
      r
    else
      []
  }

  predicate IsExcluded(url: string) {
    Contains(url, SearchEngineHost)
  }

  /** An existing record on a revisit: visited now, once more, retitled only by a non-empty title. */
  function Revisited(item: HistoryItem, title: string, now: nat): HistoryItem {
    item.(visitTime := now, visitCount := item.visitCount + 1, title := if title == "" then item.title else title)
  }

  /** The record of a first visit: the title falls back to the url when empty. */
  function FirstVisit(url: string, title: string, now: nat): HistoryItem {
    HistoryItem(Decimal(now), url, if title == "" then url else title, now, 1)
  }

  /** The list after a visit and before truncation: the visited url's record in front. */
  function Promote(h: seq<HistoryItem>, url: string, title: string, now: nat): (r: seq<HistoryItem>)
    ensures |r| > 0 && r[0].url == url && r[0].visitTime == now
    ensures |r| == if IndexOfKey(h, UrlOf, url) == -1 then |h| + 1 else |h|
  {
    var k := IndexOfKey(h, UrlOf, url);
    if k == -1 then [FirstVisit(url, title, now)] + h
    else [Revisited(h[k], title, now)] + (h[..k] + h[k + 1..])
  }

  /** `addHistory`: returns the new content of the key. An excluded url writes nothing;
      any other visit leaves its url's record in front, stamped `now`, and at most
      `MaxHistoryItems` records. No error escapes. */
  function AddHistory(stored: Stored, url: string, title: string, now: nat): (r: Stored)
    ensures IsExcluded(url) ==> r == stored
    ensures !IsExcluded(url) ==>
      && r.Some?
      && 0 < |r.value| <= MaxHistoryItems
      && r.value[0].url == url && r.value[0].visitTime == now
  {
    if IsExcluded(url) then stored
    else Some(Take(Promote(GetHistory(stored), url, title, now), MaxHistoryItems))
  }

  /** `deleteHistoryItem`: writes back every record with another id, matched or not. */
  function DeleteHistoryItem(stored: Stored, id: string): (r: seq<HistoryItem>)
    ensures forall i :: 0 <= i < |r| ==> r[i].id != id && r[i] in GetHistory(stored)
    ensures stored.Some? ==> forall i :: 0 <= i < |stored.value| && stored.value[i].id != id ==> stored.value[i] in r
    ensures CountsFiltered(r, GetHistory(stored), KeyIsNot(IdOf, id))
    ensures FilteredFrom(r, GetHistory(stored), KeyIsNot(IdOf, id))
    ensures SortedDesc(r, ByVisitTime)
  {
    var h := GetHistory(stored);
    var r := WithoutKey(h, IdOf, id);
    assert SortedDesc(r, ByVisitTime) by {
      FilterKeepsSorted(h, KeyIsNot(IdOf, id), ByVisitTime);
    }
    assert FilteredFrom(r, h, KeyIsNot(IdOf, id)) by {
      FilterInOrder(h, KeyIsNot(IdOf, id));
    }
    assert CountsFiltered(r, h, KeyIsNot(IdOf, id)) by {
      FilterCounts(h, KeyIsNot(IdOf, id));
    }
    r
  }

  /** `clearHistory` removes the key, which then reads as the empty list. */
  function ClearHistory(): (r: Stored)
    ensures GetHistory(r) == []
  {
    None
  }

  function MatchesKey(key: string): HistoryItem -> bool {
    (h: HistoryItem) => MatchesSearch(h.title, h.url, key)
  }

  /** `searchHistory`: a blank query returns the whole list; any other query returns,
      most recent first, exactly the records whose lower-cased title or url contains it. */
  function SearchHistory(stored: Stored, query: string): (r: seq<HistoryItem>)
    ensures AllWhitespace(query) ==> r == GetHistory(stored)
    ensures !AllWhitespace(query) ==>
      var h := GetHistory(stored);
      && (forall i :: 0 <= i < |r| ==> r[i] in h && MatchesSearch(r[i].title, r[i].url, SearchKey(query)))
      && (forall i :: 0 <= i < |h| && MatchesSearch(h[i].title, h[i].url, SearchKey(query)) ==> h[i] in r)
      && CountsFiltered(r, h, MatchesKey(SearchKey(query)))
      && FilteredFrom(r, h, MatchesKey(SearchKey(query)))
    ensures SortedDesc(r, ByVisitTime)
  {
    var h := GetHistory(stored);
    var key := SearchKey(query);
    BlankSearchKey(query);
    if key == [] then h
    else
      FilterKeepsSorted(h, MatchesKey(key), ByVisitTime);
      FilterInOrder(h, MatchesKey(key));
      FilterCounts(h, MatchesKey(key));
      Filter(h, MatchesKey(key))
  }

  predicate VisitedMoreThanOnce(h: HistoryItem) {
    h.visitCount > 1
  }

  /** `s.slice(0, end)`: a negative `end` counts back from the end of `s`. */
  function SliceTo<T>(s: seq<T>, end: int): (r: seq<T>)
    ensures r <= s
    ensures 0 <= end ==> |r| == if end < |s| then end else |s|
    ensures end < 0 ==> |r| == if |s| + end < 0 then 0 else |s| + end
  {
    if 0 <= end then Take(s, end)
    else if |s| + end < 0 then []
    else s[..|s| + end]
  }

  /** The records visited more than once, most visited first, ties most recent first. */
  function RankedFrequent(h: seq<HistoryItem>): (r: seq<HistoryItem>)
    ensures SortedDesc(r, ByFrequency)
    ensures forall i :: 0 <= i < |r| ==> r[i] in h && r[i].visitCount > 1
    ensures forall i :: 0 <= i < |h| && h[i].visitCount > 1 ==> h[i] in r
    ensures CountsFiltered(r, h, VisitedMoreThanOnce)
  {
    var frequent := Filter(h, VisitedMoreThanOnce);
    FilterCounts(h, VisitedMoreThanOnce);
    SortDesc(frequent, ByFrequency)
  }

  /** `getFrequentSites(limit)`: the leading `limit` records of the frequency ranking. */
  function GetFrequentSites(stored: Stored, limit: int): (r: seq<HistoryItem>)
    ensures r <= RankedFrequent(GetHistory(stored))
    ensures var ranked := RankedFrequent(GetHistory(stored));
      0 <= limit ==> |r| == if limit < |ranked| then limit else |ranked|
    ensures forall i :: 0 <= i < |r| ==> r[i] in GetHistory(stored) && r[i].visitCount > 1
    ensures SortedDesc(r, ByFrequency)
  {
    var h := GetHistory(stored);
    var ranked := RankedFrequent(h);
    var r := SliceTo(ranked, limit);
    PrefixKeepsSorted(ranked, r, ByFrequency);
    r
  }

  /** The callback of `getHistoryByDate` for a day running from `start` to `end`. */
  function VisitedBetween(start: int, end: int): HistoryItem -> bool {
    (h: HistoryItem) => start <= h.visitTime <= end
  }

  /** `getHistoryByDate`: the records whose visit time lies in `[start, end]`, both
      bounds included, most recent first. */
  function GetHistoryByDate(stored: Stored, start: int, end: int): (r: seq<HistoryItem>)
    ensures forall i :: 0 <= i < |r| ==> r[i] in GetHistory(stored) && start <= r[i].visitTime <= end
    ensures var h := GetHistory(stored);
      forall i :: 0 <= i < |h| && start <= h[i].visitTime <= end ==> h[i] in r
    ensures CountsFiltered(r, GetHistory(stored), VisitedBetween(start, end))
    ensures FilteredFrom(r, GetHistory(stored), VisitedBetween(start, end))
    ensures SortedDesc(r, ByVisitTime)
  {
    var h := GetHistory(stored);
    FilterKeepsSorted(h, VisitedBetween(start, end), ByVisitTime);
    FilterInOrder(h, VisitedBetween(start, end));
    FilterCounts(h, VisitedBetween(start, end));
    Filter(h, VisitedBetween(start, end))
  }
}

/** The bookmark store (`BookmarkService`): one storage key holding the whole
    list, rewritten in full by every operation. Every operation starts from
    `GetBookmarks`, the list as read back and sorted newest first. */
module BookmarkService {
  import opened Wrappers
  import opened Text
  import opened Seqs
  import opened Sorting

  datatype Bookmark = Bookmark(id: string, url: string, title: string, dateAdded: int, favicon: Option<string>)

  /** The bookmarks key: `None` when it is absent or its text does not parse to an array. */
  type Stored = Option<seq<Bookmark>>

  /** Why an operation throws: a duplicate url, an unknown id, or an unusable import. */
  datatype BookmarkError = AlreadyExists | NotFound | MalformedJson | InvalidFormat | NoValidEntries

  function UrlOf(b: Bookmark): string { b.url }
  function IdOf(b: Bookmark): string { b.id }

  /** The sort key of `getBookmarks`: newest `dateAdded` first. */
  function ByDateAdded(b: Bookmark): Rank { (b.dateAdded, 0) }

  /** The stored list, newest first; an absent or unreadable key reads as empty. */
  function GetBookmarks(stored: Stored): (r: seq<Bookmark>)
    ensures stored.None? ==> r == []
    ensures stored.Some? ==> multiset(r) == multiset(stored.value)
    ensures stored.Some? ==> forall i :: 0 <= i < |r| ==> r[i] in stored.value
    ensures stored.Some? ==> forall i :: 0 <= i < |stored.value| ==> stored.value[i] in r
    ensures SortedDesc(r, ByDateAdded)
  {
    if stored.Some? then
      var r := SortDesc(stored.value, ByDateAdded);
      r
    else
      []
  }

  /** Some stored bookmark has exactly this url. */
  function IsBookmarked(stored: Stored, url: string): (r: bool)
    ensures r <==> stored.Some? && exists i :: 0 <= i < |stored.value| && stored.value[i].url == url
  {
    var bs := GetBookmarks(stored);
    IndexOfKey(bs, UrlOf, url) != -1
  }

  /** The record `addBookmark` creates: the title falls back to the url when empty. */
  function NewBookmark(url: string, title: string, now: nat): Bookmark {
    Bookmark(Decimal(now), url, if title == "" then url else title, now, None)
  }

  /** `addBookmark`: throws when the url is already bookmarked, otherwise writes the
      list with the new record in front of every existing one. */
  function AddBookmark(stored: Stored, url: string, title: string, now: nat): (r: Result<seq<Bookmark>, BookmarkError>)
    ensures r.Failure? <==> IsBookmarked(stored, url)
    ensures r.Failure? ==> r.error == AlreadyExists
    ensures r.Success? ==>
      var bs := GetBookmarks(stored);
      && |r.value| == |bs| + 1
      && r.value[0].url == url
      && r.value[0].title == (if title == "" then url else title)
      && r.value[0].id == Decimal(now) && r.value[0].dateAdded == now
      && r.value[0].favicon.None?
      && r.value[1..] == bs
  {
    var bs := GetBookmarks(stored);
    if IndexOfKey(bs, UrlOf, url) != -1 then Failure(AlreadyExists)
    else Success([NewBookmark(url, title, now)] + bs)
  }

  /** `deleteBookmark`: writes back every bookmark with another id; an unknown id is no error. */
  function DeleteBookmark(stored: Stored, id: string): (r: seq<Bookmark>)
    ensures forall i :: 0 <= i < |r| ==> r[i].id != id && r[i] in GetBookmarks(stored)
    ensures stored.Some? ==> forall i :: 0 <= i < |stored.value| && stored.value[i].id != id ==> stored.value[i] in r
    ensures CountsFiltered(r, GetBookmarks(stored), KeyIsNot(IdOf, id))
    ensures FilteredFrom(r, GetBookmarks(stored), KeyIsNot(IdOf, id))
    ensures SortedDesc(r, ByDateAdded)
  {
    var bs := GetBookmarks(stored);
    var r := WithoutKey(bs, IdOf, id);
    FilterKeepsSorted(bs, KeyIsNot(IdOf, id), ByDateAdded);
    FilterInOrder(bs, KeyIsNot(IdOf, id));
    FilterCounts(bs, KeyIsNot(IdOf, id));
    r
  }

  /** The fields an update supplies; `None` leaves a field as it is. */
  datatype BookmarkPatch = BookmarkPatch(
    id: Option<string>, url: Option<string>, title: Option<string>,
    dateAdded: Option<int>, favicon: Option<Option<string>>)

  function Override<T>(update: Option<T>, current: T): T {
    if update.Some? then update.value else current
  }

  /** `{...b, ...patch}`: supplied fields win over the record's own. */
  function ApplyPatch(b: Bookmark, patch: BookmarkPatch): (r: Bookmark)
    ensures patch.url.None? ==> r.url == b.url
    ensures patch.url.Some? ==> r.url == patch.url.value
    ensures patch.id.None? ==> r.id == b.id
    ensures patch.id.Some? ==> r.id == patch.id.value
    ensures patch.title.None? ==> r.title == b.title
    ensures patch.title.Some? ==> r.title == patch.title.value
    ensures patch.dateAdded.None? ==> r.dateAdded == b.dateAdded
    ensures patch.dateAdded.Some? ==> r.dateAdded == patch.dateAdded.value
    ensures patch.favicon.None? ==> r.favicon == b.favicon
    ensures patch.favicon.Some? ==> r.favicon == patch.favicon.value
  {
    Bookmark(
      Override(patch.id, b.id), Override(patch.url, b.url), Override(patch.title, b.title),
      Override(patch.dateAdded, b.dateAdded), Override(patch.favicon, b.favicon))
  }

  /** `updateBookmark`: throws when no bookmark has the id; otherwise patches the first
      one that does and leaves every other position as read. */
  function UpdateBookmark(stored: Stored, id: string, patch: BookmarkPatch): (r: Result<seq<Bookmark>, BookmarkError>)
    ensures var bs := GetBookmarks(stored);
      r.Failure? <==> forall i :: 0 <= i < |bs| ==> bs[i].id != id
    ensures r.Failure? ==> r.error == NotFound
    ensures r.Success? ==>
      var bs := GetBookmarks(stored);
      && |r.value| == |bs|
      && exists k :: (
           && FirstOfKey(bs, IdOf, k) && bs[k].id == id
           && r.value[k] == ApplyPatch(bs[k], patch)
           && forall j :: 0 <= j < |bs| && j != k ==> r.value[j] == bs[j])
  {
    var bs := GetBookmarks(stored);
    var k := IndexOfKey(bs, IdOf, id);
    if k == -1 then Failure(NotFound)
    else
      assert FirstOfKey(bs, IdOf, k);
      Success(bs[k := ApplyPatch(bs[k], patch)])
  }

  /** The search callback for a normalised key. */
  function MatchesKey(key: string): Bookmark -> bool {
    (b: Bookmark) => MatchesSearch(b.title, b.url, key)
  }

  /** `searchBookmarks`: a blank query returns the whole list; any other query returns,
      newest first, exactly the bookmarks whose lower-cased title or url contains it. */
  function SearchBookmarks(stored: Stored, query: string): (r: seq<Bookmark>)
    ensures AllWhitespace(query) ==> r == GetBookmarks(stored)
    ensures !AllWhitespace(query) ==>
      var bs := GetBookmarks(stored);
      && (forall i :: 0 <= i < |r| ==> r[i] in bs && MatchesSearch(r[i].title, r[i].url, SearchKey(query)))
      && (forall i :: 0 <= i < |bs| && MatchesSearch(bs[i].title, bs[i].url, SearchKey(query)) ==> bs[i] in r)
      && CountsFiltered(r, bs, MatchesKey(SearchKey(query)))
      && FilteredFrom(r, bs, MatchesKey(SearchKey(query)))
    ensures SortedDesc(r, ByDateAdded)
  {
    var bs := GetBookmarks(stored);
    var key := SearchKey(query);
    BlankSearchKey(query);
    if key == [] then bs
    else
      FilterKeepsSorted(bs, MatchesKey(key), ByDateAdded);
      FilterInOrder(bs, MatchesKey(key));
      FilterCounts(bs, MatchesKey(key));
      Filter(bs, MatchesKey(key))
  }

  /** `clearAllBookmarks` removes the key, which then reads as the empty list. */
  function ClearAllBookmarks(): (r: Stored)
    ensures GetBookmarks(r) == []
  {
    None
  }

  /** `exportBookmarks`: the list that is serialised, every stored bookmark newest first. */
  function ExportBookmarks(stored: Stored): (r: seq<Bookmark>)
    ensures stored.Some? ==> multiset(r) == multiset(stored.value)
    ensures stored.None? ==> r == []
    ensures SortedDesc(r, ByDateAdded)
  {
    GetBookmarks(stored)
  }

  /** One element of a parsed import array: a falsy value, or an object whose `url`
      and `title` are `None` unless they are strings, and whose `dateAdded` is `None`
      when absent. */
  datatype RawEntry =
    | Falsy
    | Entry(url: Option<string>, title: Option<string>, dateAdded: Option<int>, favicon: Option<string>)

  /** What `JSON.parse` makes of the import text. */
  datatype ImportPayload = Unparsable | NotAnArray | EntryArray(entries: seq<RawEntry>)

  /** The import filter: an object with string `url` and `title` and a non-blank `url`;
      an empty title is accepted. */
  predicate IsValidEntry(e: RawEntry) {
    e.Entry? && e.url.Some? && e.title.Some? && Trim(e.url.value) != ""
  }

  /** A surviving entry with its new id; a truthy `dateAdded` is kept, otherwise `now`. */
  function Imported(e: RawEntry, index: nat, now: nat): (r: Bookmark)
    requires IsValidEntry(e)
    ensures r.url == e.url.value && r.title == e.title.value && r.favicon == e.favicon
    ensures r.id == Decimal(now + index)
    ensures r.dateAdded == if e.dateAdded.Some? && e.dateAdded.value != 0 then e.dateAdded.value else now
  {
    var date := if e.dateAdded.Some? && e.dateAdded.value != 0 then e.dateAdded.value else now;
    Bookmark(Decimal(now + index), e.url.value, e.title.value, date, e.favicon)
  }

  /** Every surviving entry re-identified by its position, in order: the `i`-th
      keeps its url and gets the id `now + i`. */
  function ImportedAll(valid: seq<RawEntry>, now: nat): (r: seq<Bookmark>)
    requires forall i :: 0 <= i < |valid| ==> IsValidEntry(valid[i])
    ensures |r| == |valid|
    ensures forall i :: 0 <= i < |r| ==> r[i] == Imported(valid[i], i, now)
  {
    seq(|valid|, i requires 0 <= i < |valid| => Imported(valid[i], i, now))
  }

  function ValidEntries(entries: seq<RawEntry>): (r: seq<RawEntry>)
    ensures forall i :: 0 <= i < |r| ==> IsValidEntry(r[i]) && r[i] in entries
    ensures forall i :: 0 <= i < |entries| && IsValidEntry(entries[i]) ==> entries[i] in r
    ensures CountsFiltered(r, entries, IsValidEntry)
    ensures FilteredFrom(r, entries, IsValidEntry)
  {
    FilterInOrder(entries, IsValidEntry);
    FilterCounts(entries, IsValidEntry);
    Filter(entries, IsValidEntry)
  }

  /** The merge step of `importBookmarks`: imported records go first, then the
      existing ones, and only the first record of each url is kept, so an imported
      record wins over an existing one with the same url. */
  function MergeImported(imported: seq<Bookmark>, bs: seq<Bookmark>): (r: seq<Bookmark>)
    ensures KeysDistinct(r, UrlOf)
    ensures forall i :: 0 <= i < |r| ==> r[i] in imported || r[i] in bs
    ensures forall i :: 0 <= i < |imported| ==> exists j :: 0 <= j < |r| && UrlOf(r[j]) == UrlOf(imported[i])
    ensures forall i :: 0 <= i < |bs| ==> exists j :: 0 <= j < |r| && UrlOf(r[j]) == UrlOf(bs[i])
    ensures FirstsInOrder(r, imported + bs, UrlOf)
    ensures forall i, j :: 0 <= i < j < |r| && r[j] in imported ==> r[i] in imported
  {
    MergeCovers(imported, bs);
    DedupFirstFrontBlock(imported, bs, UrlOf);
    DedupFirst(imported + bs, UrlOf)
  }

  /** Every url of either input survives the merge. */
  lemma MergeCovers(imported: seq<Bookmark>, bs: seq<Bookmark>)
    ensures var r := DedupFirst(imported + bs, UrlOf);
      && (forall i :: 0 <= i < |imported| ==> exists j :: 0 <= j < |r| && UrlOf(r[j]) == UrlOf(imported[i]))
      && (forall i :: 0 <= i < |bs| ==> exists j :: 0 <= j < |r| && UrlOf(r[j]) == UrlOf(bs[i]))
  {
    var merged := imported + bs;
    var r := DedupFirst(merged, UrlOf);
    forall i | 0 <= i < |imported|
      ensures exists j :: 0 <= j < |r| && UrlOf(r[j]) == UrlOf(imported[i])
    {
      assert merged[i] == imported[i];
    }
    forall i | 0 <= i < |bs|
      ensures exists j :: 0 <= j < |r| && UrlOf(r[j]) == UrlOf(bs[i])
    {
      assert merged[|imported| + i] == bs[i];
    }
  }

  /** `importBookmarks`: throws on text that is not a JSON array or holds no valid
      entry; otherwise merges the re-identified valid entries into the stored list. */
  function ImportBookmarks(stored: Stored, payload: ImportPayload, now: nat): (r: Result<seq<Bookmark>, BookmarkError>)
    ensures payload.Unparsable? ==> r == Failure(MalformedJson)
    ensures payload.NotAnArray? ==> r == Failure(InvalidFormat)
    ensures payload.EntryArray? ==>
      (r.Failure? <==> forall i :: 0 <= i < |payload.entries| ==> !IsValidEntry(payload.entries[i]))
    ensures payload.EntryArray? && r.Failure? ==> r.error == NoValidEntries
    ensures r.Success? ==>
      && payload.EntryArray?
      && r.value == MergeImported(ImportedAll(ValidEntries(payload.entries), now), GetBookmarks(stored))
  {
    match payload
    case Unparsable => Failure(MalformedJson)
    case NotAnArray => Failure(InvalidFormat)
    case EntryArray(entries) =>
      var valid := ValidEntries(entries);
      if |valid| == 0 then
        Failure(NoValidEntries)
      else
        Success(MergeImported(ImportedAll(valid, now), GetBookmarks(stored)))
  }
}

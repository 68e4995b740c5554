/** Properties relating the bookmark store's operations to each other. */
module BookmarkProperties {
  import opened Wrappers
  import opened Text
  import opened Seqs
  import opened Sorting
  import opened BookmarkService

  /** Urls that are unique in the store stay unique after a successful add. */
  lemma {:induction false} AddBookmarkKeepsUrlsDistinct(stored: Stored, url: string, title: string, now: nat)
    requires stored.Some? ==> KeysDistinct(stored.value, UrlOf)
    ensures var r := AddBookmark(stored, url, title, now);
      r.Success? ==> KeysDistinct(r.value, UrlOf)
  {
    var bs := GetBookmarks(stored);
    if stored.Some? {
      PermutationKeepsKeysDistinct(stored.value, bs, UrlOf);
    }
    var r := AddBookmark(stored, url, title, now);
    if r.Success? {
      assert r.value == [r.value[0]] + bs;
      PrependKeepsKeysDistinct(r.value[0], bs, UrlOf);
    }
  }

  /** After a successful add, the url is bookmarked by exactly one record, and adding
      it a second time throws `AlreadyExists`. */
  lemma AddBookmarkTwice(stored: Stored, url: string, title: string, title2: string, now: nat, later: nat)
    requires AddBookmark(stored, url, title, now).Success?
    ensures var bs := AddBookmark(stored, url, title, now).value;
      && IsBookmarked(Some(bs), url)
      && (forall i :: 0 <= i < |bs| && bs[i].url == url ==> i == 0)
      && AddBookmark(Some(bs), url, title2, later) == Failure(AlreadyExists)
  {
    var before := GetBookmarks(stored);
    var bs := AddBookmark(stored, url, title, now).value;
    assert bs[0].url == url;
    forall i | 0 < i < |bs|
      ensures bs[i].url != url
    {
      assert bs[i] == before[i - 1];
    }
  }

  /** Deleting the same id twice gives the same list as deleting it once. */
  lemma DeleteBookmarkIdempotent(stored: Stored, id: string)
    ensures DeleteBookmark(Some(DeleteBookmark(stored, id)), id) == DeleteBookmark(stored, id)
  {
    var once := DeleteBookmark(stored, id);
    SortedIsFixpoint(once, ByDateAdded);
    FilterIdempotent(GetBookmarks(stored), KeyIsNot(IdOf, id));
  }

  /** Deleting an id no bookmark carries writes back the list as read. */
  lemma DeleteAbsentBookmark(stored: Stored, id: string)
    requires stored.Some? ==> forall i :: 0 <= i < |stored.value| ==> stored.value[i].id != id
    ensures DeleteBookmark(stored, id) == GetBookmarks(stored)
  {
    var bs := GetBookmarks(stored);
    WithoutAbsentKey(bs, IdOf, id);
  }

  /** A patch that supplies no url leaves the set of bookmarked urls as it was. */
  lemma UpdateBookmarkKeepsUrls(stored: Stored, id: string, patch: BookmarkPatch, url: string)
    requires patch.url.None?
    requires UpdateBookmark(stored, id, patch).Success?
    ensures IsBookmarked(Some(UpdateBookmark(stored, id, patch).value), url) <==> IsBookmarked(stored, url)
  {
    UpdateKeepsEveryUrl(stored, id, patch);
    SameUrlsSameBookmarked(stored, UpdateBookmark(stored, id, patch).value, url);
  }

  /** A list that carries, position by position, the urls read from the store
      bookmarks the same urls as the store. */
  lemma SameUrlsSameBookmarked(stored: Stored, r: seq<Bookmark>, url: string)
    requires |r| == |GetBookmarks(stored)|
    requires forall j :: 0 <= j < |r| ==> r[j].url == GetBookmarks(stored)[j].url
    ensures IsBookmarked(Some(r), url) <==> IsBookmarked(stored, url)
  {
    var bs := GetBookmarks(stored);
    if IsBookmarked(stored, url) {
      var i :| 0 <= i < |stored.value| && stored.value[i].url == url;
      var j :| 0 <= j < |bs| && bs[j] == stored.value[i];
      assert r[j].url == url;
    }
    if IsBookmarked(Some(r), url) {
      var j :| 0 <= j < |r| && r[j].url == url;
      assert bs[j] in stored.value;
    }
  }

  lemma UpdateKeepsEveryUrl(stored: Stored, id: string, patch: BookmarkPatch)
    requires patch.url.None?
    requires UpdateBookmark(stored, id, patch).Success?
    ensures var bs := GetBookmarks(stored);
      var r := UpdateBookmark(stored, id, patch).value;
      |r| == |bs| && forall j :: 0 <= j < |bs| ==> r[j].url == bs[j].url
  {
    var bs := GetBookmarks(stored);
    var r := UpdateBookmark(stored, id, patch).value;
    var k :| FirstOfKey(bs, IdOf, k) && bs[k].id == id && r[k] == ApplyPatch(bs[k], patch)
      && forall j :: 0 <= j < |bs| && j != k ==> r[j] == bs[j];
  }

  /** An imported record wins over an existing one with the same url: every record
      the import writes whose url some imported record carries is an imported record. */
  lemma {:induction false} ImportedRecordsWin(stored: Stored, payload: ImportPayload, now: nat)
    requires ImportBookmarks(stored, payload, now).Success?
    ensures var r := ImportBookmarks(stored, payload, now).value;
      var imported := ImportedAll(ValidEntries(payload.entries), now);
      forall j, k :: 0 <= j < |r| && 0 <= k < |imported| && imported[k].url == r[j].url ==> r[j] in imported
  {
    var imported := ImportedAll(ValidEntries(payload.entries), now);
    DedupFirstPrefersFront(imported, GetBookmarks(stored), UrlOf);
  }

  /** The ids an import assigns are pairwise distinct. */
  lemma ImportedIdsDistinct(valid: seq<RawEntry>, now: nat)
    requires forall i :: 0 <= i < |valid| ==> IsValidEntry(valid[i])
    ensures KeysDistinct(ImportedAll(valid, now), IdOf)
  {
    var r := ImportedAll(valid, now);
    forall i, j | 0 <= i < j < |r|
      ensures IdOf(r[i]) != IdOf(r[j])
    {
      DistinctTimesDistinctIds(now + i, now + j);
    }
  }

  /** Re-identifying keeps each surviving entry's url and title at its position. */
  lemma ImportedAllKeepsEntries(valid: seq<RawEntry>, now: nat)
    requires forall i :: 0 <= i < |valid| ==> IsValidEntry(valid[i])
    ensures var r := ImportedAll(valid, now);
      forall i :: 0 <= i < |valid| ==> r[i].url == valid[i].url.value && r[i].title == valid[i].title.value
  {
    var r := ImportedAll(valid, now);
    forall i | 0 <= i < |valid|
      ensures r[i].url == valid[i].url.value && r[i].title == valid[i].title.value
    {
      var b := Imported(valid[i], i, now);
      assert r[i] == b;
    }
  }

  lemma DistinctTimesDistinctIds(a: nat, b: nat)
    requires a != b
    ensures Decimal(a) != Decimal(b)
  {
    if Decimal(a) == Decimal(b) {
      DecimalInjective(a, b);
    }
  }

  /** A bookmark as it appears in exported JSON, read back as an import entry. */
  function AsEntry(b: Bookmark): RawEntry {
    Entry(Some(b.url), Some(b.title), Some(b.dateAdded), b.favicon)
  }

  /** The url an import entry carries, if it is an object with a string url. */
  function EntryUrl(e: RawEntry): Option<string> {
    if e.Entry? then e.url else None
  }

  /** Importing valid entries with distinct urls into an empty store writes every one
      of them, re-identified, in their original order. */
  lemma ImportIntoEmptyKeepsAll(entries: seq<RawEntry>, now: nat)
    requires |entries| > 0
    requires forall i :: 0 <= i < |entries| ==> IsValidEntry(entries[i])
    requires forall i, j :: 0 <= i < j < |entries| ==> EntryUrl(entries[i]) != EntryUrl(entries[j])
    ensures ImportBookmarks(None, EntryArray(entries), now) == Success(ImportedAll(entries, now))
  {
    FilterAllPass(entries, IsValidEntry);
    ImportedUrlsDistinct(entries, now);
    ImportDistinctIntoEmpty(entries, now);
  }

  lemma ImportedUrlsDistinct(entries: seq<RawEntry>, now: nat)
    requires forall i :: 0 <= i < |entries| ==> IsValidEntry(entries[i])
    requires forall i, j :: 0 <= i < j < |entries| ==> EntryUrl(entries[i]) != EntryUrl(entries[j])
    ensures KeysDistinct(ImportedAll(entries, now), UrlOf)
  {
    var imported := ImportedAll(entries, now);
    forall i, j | 0 <= i < j < |imported|
      ensures UrlOf(imported[i]) != UrlOf(imported[j])
    {
      assert EntryUrl(entries[i]) == Some(imported[i].url);
      assert EntryUrl(entries[j]) == Some(imported[j].url);
    }
  }

  lemma ImportDistinctIntoEmpty(entries: seq<RawEntry>, now: nat)
    requires |entries| > 0
    requires forall i :: 0 <= i < |entries| ==> IsValidEntry(entries[i])
    requires ValidEntries(entries) == entries
    requires KeysDistinct(ImportedAll(entries, now), UrlOf)
    ensures ImportBookmarks(None, EntryArray(entries), now) == Success(ImportedAll(entries, now))
  {
    ImportSucceeds(None, entries, now, 0);
    MergeIntoEmpty(ImportedAll(entries, now));
  }

  /** One valid entry is enough for an import to succeed. */
  lemma ImportSucceeds(stored: Stored, entries: seq<RawEntry>, now: nat, i: nat)
    requires i < |entries| && IsValidEntry(entries[i])
    ensures ImportBookmarks(stored, EntryArray(entries), now)
      == Success(MergeImported(ImportedAll(ValidEntries(entries), now), GetBookmarks(stored)))
  {
  }

  /** Merging records with distinct urls into an empty store keeps them as they are. */
  lemma MergeIntoEmpty(imported: seq<Bookmark>)
    requires KeysDistinct(imported, UrlOf)
    ensures MergeImported(imported, GetBookmarks(None)) == imported
  {
    assert imported + GetBookmarks(None) == imported;
    DedupDistinctIsIdentity(imported, UrlOf, {});
  }

  /** The exported list read back as import entries. */
  function AsEntries(bs: seq<Bookmark>): (r: seq<RawEntry>)
    ensures |r| == |bs|
    ensures forall i :: 0 <= i < |bs| ==> r[i] == AsEntry(bs[i])
  {
    seq(|bs|, i requires 0 <= i < |bs| => AsEntry(bs[i]))
  }

  /** A store with non-blank urls exports entries that all pass the import filter. */
  lemma ExportedEntriesValid(stored: Stored)
    requires stored.Some?
    requires forall i :: 0 <= i < |stored.value| ==> Trim(stored.value[i].url) != ""
    ensures var entries := AsEntries(ExportBookmarks(stored));
      forall i :: 0 <= i < |entries| ==> IsValidEntry(entries[i])
  {
    var bs := ExportBookmarks(stored);
    var entries := AsEntries(bs);
    forall i | 0 <= i < |entries|
      ensures IsValidEntry(entries[i])
    {
      var k :| 0 <= k < |stored.value| && stored.value[k] == bs[i];
    }
  }

  /** A store with unique urls exports entries with unique urls. */
  lemma ExportedEntryUrlsDistinct(stored: Stored)
    requires stored.Some?
    requires KeysDistinct(stored.value, UrlOf)
    ensures var entries := AsEntries(ExportBookmarks(stored));
      forall i, j :: 0 <= i < j < |entries| ==> EntryUrl(entries[i]) != EntryUrl(entries[j])
  {
    var bs := ExportBookmarks(stored);
    var entries := AsEntries(bs);
    PermutationKeepsKeysDistinct(stored.value, bs, UrlOf);
    forall i, j | 0 <= i < j < |entries|
      ensures EntryUrl(entries[i]) != EntryUrl(entries[j])
    {
      assert UrlOf(bs[i]) != UrlOf(bs[j]);
    }
  }

  /** Exporting a non-empty store with unique, non-blank urls and importing the result
      into an empty store gives back every bookmark in order: same url, title and
      favicon, and the same date wherever that date is non-zero. */
  lemma ExportImportRoundTrip(stored: Stored, now: nat)
    requires stored.Some? && |stored.value| > 0
    requires KeysDistinct(stored.value, UrlOf)
    requires forall i :: 0 <= i < |stored.value| ==> Trim(stored.value[i].url) != ""
    ensures var bs := ExportBookmarks(stored);
      var r := ImportBookmarks(None, EntryArray(AsEntries(bs)), now);
      && r.Success?
      && |r.value| == |bs|
      && forall i :: 0 <= i < |bs| ==>
           && r.value[i].url == bs[i].url && r.value[i].title == bs[i].title
           && r.value[i].favicon == bs[i].favicon
           && (bs[i].dateAdded != 0 ==> r.value[i].dateAdded == bs[i].dateAdded)
  {
    var bs := ExportBookmarks(stored);
    var entries := AsEntries(bs);
    ExportedEntriesValid(stored);
    ExportedEntryUrlsDistinct(stored);
    ImportIntoEmptyKeepsAll(entries, now);
    var r := ImportedAll(entries, now);
    forall i | 0 <= i < |bs|
      ensures r[i].url == bs[i].url && r[i].title == bs[i].title && r[i].favicon == bs[i].favicon
      ensures bs[i].dateAdded != 0 ==> r[i].dateAdded == bs[i].dateAdded
    {
      assert entries[i] == AsEntry(bs[i]);
      assert r[i] == Imported(entries[i], i, now);
    }
  }

  /** Searching for a stored bookmark's url, when that url is lower-case, trimmed and
      not blank, finds that bookmark. */
  lemma SearchFindsOwnUrl(stored: Stored, i: nat)
    requires stored.Some? && i < |stored.value|
    requires var u := stored.value[i].url; ToLower(u) == u && Trim(u) == u && !AllWhitespace(u)
    ensures stored.value[i] in SearchBookmarks(stored, stored.value[i].url)
  {
    var b := stored.value[i];
    OwnUrlMatches(b.title, b.url);
    var bs := GetBookmarks(stored);
    var j :| 0 <= j < |bs| && bs[j] == b;
  }

  /** Patching twice with the same fields is patching once. */
  lemma ApplyPatchTwice(b: Bookmark, patch: BookmarkPatch)
    ensures ApplyPatch(ApplyPatch(b, patch), patch) == ApplyPatch(b, patch)
  {
  }

  /** A patch that supplies no field leaves the record as it is. */
  lemma EmptyPatch(b: Bookmark)
    ensures ApplyPatch(b, BookmarkPatch(None, None, None, None, None)) == b
  {
  }
}

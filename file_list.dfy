/** The LIST reply: the server's encoding of its directory (server.py `get_file_list`) and the
    client's decoding of it into table rows (client.py `get_files`). */
module FileList {
  import opened Wrappers
  import opened Text

  /** One name returned by `os.listdir`, whether `os.path.isfile` holds, and `os.path.getsize`. */
  datatype DirEntry = DirEntry(name: string, isFile: bool, size: nat)

  /** One row the client inserts into its file table: the name and the size, both as text. */
  datatype Row = Row(name: string, size: string)

  /** The rows inserted by a refresh, and whether it ran to the end without an error. */
  datatype ListResult = ListResult(rows: seq<Row>, complete: bool)

  function Item(e: DirEntry): string {
    e.name + "|" + Decimal(e.size)
  }

  /** `name|size` for every regular file, in enumeration order. */
  function Items(entries: seq<DirEntry>): (items: seq<string>)
    ensures |items| <= |entries|
    ensures forall i :: 0 <= i < |items| ==> '|' in items[i]
  {
    if entries == [] then []
    else (if entries[0].isFile then [Item(entries[0])] else []) + Items(entries[1..])
  }

  function RegularFiles(entries: seq<DirEntry>): seq<DirEntry> {
    if entries == [] then []
    else (if entries[0].isFile then [entries[0]] else []) + RegularFiles(entries[1..])
  }

  /** `get_file_list()`: `None` is any error while enumerating, which yields the empty string. */
  function EncodeFileList(listing: Option<seq<DirEntry>>): (r: string)
    ensures r == "" <==> listing.None? || Items(listing.value) == []
  {
    match listing
    case None => ""
    case Some(entries) =>
      var items := Items(entries);
      if items == [] then "" else assert '|' in Join(items, ';') by { JoinHasItem(items); } Join(items, ';')
  }

  lemma JoinHasItem(items: seq<string>)
    requires items != [] && '|' in items[0]
    ensures '|' in Join(items, ';')
  {
    if |items| > 1 {
      assert Join(items, ';') == items[0] + [';'] + Join(items[1..], ';');
    }
  }

  /** The body of the refresh loop over the `;`-separated items: items without `|` are skipped,
      an item with exactly one `|` becomes a row, and an item with more than one makes the
      unpacking `name, size = ...` raise, which ends the refresh with the rows inserted so far. */
  function ParseItems(items: seq<string>): (r: ListResult)
    ensures |r.rows| <= |items|
  {
    if items == [] then ListResult([], true)
    else if '|' !in items[0] then ParseItems(items[1..])
    else
      var fields := Split(items[0], '|');
      if |fields| != 2 then ListResult([], false)
      else
        var rest := ParseItems(items[1..]);
        ListResult([Row(fields[0], fields[1])] + rest.rows, rest.complete)
  }

  /** An item whose unpacking `name, size = item.split("|")` raises: it holds `|` but does not
      split into exactly two fields. */
  predicate BadItem(item: string) {
    '|' in item && |Split(item, '|')| != 2
  }

  /** Where the refresh loop raises: the first bad item, or the number of items when none is. */
  function FirstBad(items: seq<string>): (k: nat)
    ensures k <= |items|
    ensures forall i :: 0 <= i < k ==> !BadItem(items[i])
    ensures k < |items| ==> BadItem(items[k])
  {
    if items == [] || BadItem(items[0]) then 0 else 1 + FirstBad(items[1..])
  }

  /** The rows of items none of which is bad: one per item holding `|`, its two fields. */
  function RowsOfItems(items: seq<string>): seq<Row>
    requires forall i :: 0 <= i < |items| ==> !BadItem(items[i])
  {
    if items == [] then []
    else if '|' !in items[0] then RowsOfItems(items[1..])
    else
      var fields := Split(items[0], '|');
      assert !BadItem(items[0]);
      [Row(fields[0], fields[1])] + RowsOfItems(items[1..])
  }

  /** The refresh runs to the end exactly when every item holding `|` has exactly two fields. */
  lemma {:induction false} ParseItemsComplete(items: seq<string>)
    ensures ParseItems(items).complete <==>
              forall i :: 0 <= i < |items| && '|' in items[i] ==> |Split(items[i], '|')| == 2
  {
    if items != [] {
      ParseItemsComplete(items[1..]);
      assert forall i :: 1 <= i < |items| ==> items[i] == items[1..][i - 1];
    }
  }

  /** The rows inserted are those of the items before the first bad one, in order; the refresh
      completes exactly when there is no bad item. */
  lemma {:induction false} ParseItemsRows(items: seq<string>)
    ensures ParseItems(items).rows == RowsOfItems(items[..FirstBad(items)])
    ensures ParseItems(items).complete <==> FirstBad(items) == |items|
  {
    if items != [] && !BadItem(items[0]) {
      ParseItemsRows(items[1..]);
      var k := FirstBad(items);
      assert items[..k][1..] == items[1..][..k - 1];
    }
  }

  /** The whole refresh: an empty reply gives no rows; otherwise the reply is split on `;`. */
  function ParseFileList(data: string): ListResult {
    if data == "" then ListResult([], true) else ParseItems(Split(data, ';'))
  }

  function RowsOf(entries: seq<DirEntry>): seq<Row> {
    if entries == [] then []
    else (if entries[0].isFile then [Row(entries[0].name, Decimal(entries[0].size))] else [])
         + RowsOf(entries[1..])
  }

  predicate PlainName(name: string) {
    '|' !in name && ';' !in name
  }

  lemma ItemFields(e: DirEntry)
    requires PlainName(e.name)
    ensures Split(Item(e), '|') == [e.name, Decimal(e.size)]
  {
    SplitAtSep(e.name, Decimal(e.size), '|');
    SplitNoSep(Decimal(e.size), '|');
  }

  lemma {:induction false} ParseItemsOfEntries(entries: seq<DirEntry>)
    requires forall i :: 0 <= i < |entries| ==> PlainName(entries[i].name)
    ensures ParseItems(Items(entries)) == ListResult(RowsOf(entries), true)
    decreases |entries|
  {
    if entries != [] {
      ParseItemsOfEntries(entries[1..]);
      if entries[0].isFile {
        ItemFields(entries[0]);
        var items := Items(entries);
        assert items[0] == Item(entries[0]) && '|' in items[0];
        assert items[1..] == Items(entries[1..]);
      } else {
        assert Items(entries) == Items(entries[1..]);
        assert RowsOf(entries) == RowsOf(entries[1..]);
      }
    }
  }

  lemma {:induction false} ItemsHaveNoSemicolon(entries: seq<DirEntry>)
    requires forall i :: 0 <= i < |entries| ==> PlainName(entries[i].name)
    ensures forall i :: 0 <= i < |Items(entries)| ==> ';' !in Items(entries)[i]
    decreases |entries|
  {
    if entries != [] {
      ItemsHaveNoSemicolon(entries[1..]);
      var items := Items(entries);
      if entries[0].isFile {
        assert items == [Item(entries[0])] + Items(entries[1..]);
        assert ';' !in Decimal(entries[0].size) by {
          assert IsDigits(Decimal(entries[0].size));
        }
      }
    }
  }

  /** What the server lists, the client shows: every regular file as one row, in enumeration
      order, with the refresh completing, whenever no name contains `|` or `;`. */
  lemma ListRoundTrip(entries: seq<DirEntry>)
    requires forall i :: 0 <= i < |entries| ==> PlainName(entries[i].name)
    ensures ParseFileList(EncodeFileList(Some(entries))) == ListResult(RowsOf(entries), true)
  {
    var items := Items(entries);
    ParseItemsOfEntries(entries);
    if items != [] {
      ItemsHaveNoSemicolon(entries);
      SplitJoin(items, ';');
    }
  }

  /** A failed enumeration and an empty directory both read as an empty, complete listing. */
  lemma EmptyListing(listing: Option<seq<DirEntry>>)
    requires listing.None? || RegularFiles(listing.value) == []
    ensures ParseFileList(EncodeFileList(listing)) == ListResult([], true)
  {
    if listing.Some? {
      NoRegularNoItems(listing.value);
    }
  }

  lemma {:induction false} NoRegularNoItems(entries: seq<DirEntry>)
    requires RegularFiles(entries) == []
    ensures Items(entries) == []
    decreases |entries|
  {
    if entries != [] {
      assert !entries[0].isFile;
      NoRegularNoItems(entries[1..]);
    }
  }
}

/**
 * The page table of database.py: one row per URL, keyed by the URL.
 *
 * SQLite is replaced by a map held in a `PageTable` object; the ISO-8601
 * timestamps written by `datetime.utcnow().isoformat()` are replaced by a
 * clock reading `now: nat` that the caller passes in.
 */
module Database {
  import opened Wrappers

  /** The three status values the handlers store. */
  datatype Status = Ok | Changed | Error

  /** One row of the `pages` table (database.py:15-22), without its key. */
  datatype Record = Record(
    contentHash: Option<string>,
    status: Status,
    lastChecked: nat,
    lastChanged: Option<nat>,
    lastError: Option<string>)

  /** One row as `get_all_pages` selects it: the key and every column but the hash. */
  datatype Listing = Listing(
    url: string,
    status: Status,
    lastChecked: nat,
    lastChanged: Option<nat>,
    lastError: Option<string>)

  function ListingOf(url: string, r: Record): Listing {
    Listing(url, r.status, r.lastChecked, r.lastChanged, r.lastError)
  }

  /** The table after `save_page(url, contentHash, status, errorMessage)` at time `now`:
      the row for `url` is replaced as a whole, keeping only its `last_changed`
      unless the new status is CHANGED. */
  function Saved(rows: map<string, Record>, url: string, contentHash: Option<string>,
                 status: Status, errorMessage: Option<string>, now: nat): (r: map<string, Record>)
    ensures r.Keys == rows.Keys + {url}
    ensures r[url].lastChecked == now
    ensures status == Changed ==> r[url].lastChanged == Some(now)
    ensures url in rows && rows[url].lastChanged.Some? ==> r[url].lastChanged.Some?
  {
    var previous := if url in rows then rows[url].lastChanged else None;
    var lastChanged := if status == Changed then Some(now) else previous;
    rows[url := Record(contentHash, status, now, lastChanged, errorMessage)]
  }

  /** What `get_page(url)` returns: the stored hash, or None when there is no row. */
  function StoredHash(rows: map<string, Record>, url: string): (h: Option<string>)
    ensures h.Some? ==> url in rows && rows[url].contentHash == h
    ensures url in rows ==> h == rows[url].contentHash
    ensures url !in rows ==> h == None
  {
    if url in rows then rows[url].contentHash else None
  }

  /** Newest check first, as `ORDER BY last_checked DESC` delivers the rows. */
  predicate NewestFirst(list: seq<Listing>) {
    forall i, j :: 0 <= i < j < |list| ==> list[i].lastChecked >= list[j].lastChecked
  }

  predicate DistinctUrls(list: seq<Listing>) {
    forall i, j :: 0 <= i < j < |list| ==> list[i].url != list[j].url
  }

  /** The set of URLs listed. */
  function Urls(list: seq<Listing>): set<string> {
    set i | 0 <= i < |list| :: list[i].url
  }

  /** Puts `e` in front of the first entry that was checked no later than it. */
  function Insert(list: seq<Listing>, e: Listing): (r: seq<Listing>)
    ensures multiset(r) == multiset(list) + multiset{e}
  {
    if list == [] || list[0].lastChecked <= e.lastChecked then [e] + list
    else
      assert list == [list[0]] + list[1..];
      [list[0]] + Insert(list[1..], e)
  }

  /** Putting an entry no older than all others in front keeps the order. */
  lemma ConsNewestFirst(x: Listing, tail: seq<Listing>)
    requires NewestFirst(tail)
    requires forall y :: y in tail ==> y.lastChecked <= x.lastChecked
    ensures NewestFirst([x] + tail)
  {
    var r := [x] + tail;
    forall i, j | 0 <= i < j < |r| ensures r[i].lastChecked >= r[j].lastChecked {
      assert r[j] == tail[j - 1];
      if i > 0 {
        assert r[i] == tail[i - 1];
      }
    }
  }

  /** Insertion keeps a newest-first list newest-first. */
  lemma {:induction false} InsertNewestFirst(list: seq<Listing>, e: Listing)
    requires NewestFirst(list)
    ensures NewestFirst(Insert(list, e))
  {
    if list == [] || list[0].lastChecked <= e.lastChecked {
      forall y | y in list ensures y.lastChecked <= e.lastChecked {
        var k :| 0 <= k < |list| && list[k] == y;
      }
      ConsNewestFirst(e, list);
    } else {
      var tail := Insert(list[1..], e);
      InsertNewestFirst(list[1..], e);
      forall y | y in tail ensures y.lastChecked <= list[0].lastChecked {
        assert y in multiset(tail);
        if y != e {
          assert y in multiset(list[1..]);
          var k :| 0 <= k < |list[1..]| && list[1..][k] == y;
          assert list[k + 1] == y;
        }
      }
      ConsNewestFirst(list[0], tail);
    }
  }

  lemma UrlsCons(x: Listing, list: seq<Listing>)
    ensures Urls([x] + list) == {x.url} + Urls(list)
  {
    var c := [x] + list;
    assert c[0].url == x.url;
    forall u | u in Urls(c) ensures u in {x.url} + Urls(list) {
      var i :| 0 <= i < |c| && c[i].url == u;
      if i > 0 {
        assert list[i - 1].url == u;
      }
    }
    forall u | u in Urls(list) ensures u in Urls(c) {
      var i :| 0 <= i < |list| && list[i].url == u;
      assert c[i + 1].url == u;
    }
  }

  lemma {:induction false} InsertKeepsDistinct(list: seq<Listing>, e: Listing)
    requires DistinctUrls(list) && e.url !in Urls(list)
    ensures DistinctUrls(Insert(list, e))
    ensures Urls(Insert(list, e)) == Urls(list) + {e.url}
  {
    if list == [] || list[0].lastChecked <= e.lastChecked {
      UrlsCons(e, list);
      ConsDistinct(e, list);
    } else {
      var head, rest := list[0], list[1..];
      assert list == [head] + rest;
      UrlsCons(head, rest);
      assert DistinctUrls(rest) && head.url !in Urls(rest) by {
        forall i | 0 <= i < |rest| ensures rest[i].url != head.url {
          assert rest[i] == list[i + 1];
        }
      }
      InsertKeepsDistinct(rest, e);
      UrlsCons(head, Insert(rest, e));
      ConsDistinct(head, Insert(rest, e));
    }
  }

  lemma ConsDistinct(x: Listing, list: seq<Listing>)
    requires DistinctUrls(list) && x.url !in Urls(list)
    ensures DistinctUrls([x] + list)
  {
    var c := [x] + list;
    forall i, j | 0 <= i < j < |c| ensures c[i].url != c[j].url {
      assert c[j] == list[j - 1];
      if i > 0 {
        assert c[i] == list[i - 1];
      }
    }
  }

  /** What one save does to the table: one row per URL, only the saved row
      changes, its fields are the passed values verbatim, `last_checked` is the
      time of the save, and `last_changed` moves only on CHANGED. */
  lemma SavedRow(rows: map<string, Record>, url: string, contentHash: Option<string>,
                 status: Status, errorMessage: Option<string>, now: nat)
    ensures Saved(rows, url, contentHash, status, errorMessage, now).Keys == rows.Keys + {url}
    ensures forall u :: u in rows && u != url ==>
      Saved(rows, url, contentHash, status, errorMessage, now)[u] == rows[u]
    ensures var row := Saved(rows, url, contentHash, status, errorMessage, now)[url];
      row.contentHash == contentHash && row.status == status &&
      row.lastError == errorMessage && row.lastChecked == now
    ensures var row := Saved(rows, url, contentHash, status, errorMessage, now)[url];
      (status == Changed ==> row.lastChanged == Some(now)) &&
      (status != Changed ==> row.lastChanged == (if url in rows then rows[url].lastChanged else None))
  {
  }

  /** After `save_page(url, h, ...)`, `get_page(url)` returns `h`, and every other
      URL's hash is unchanged. */
  lemma StoredHashAfterSave(rows: map<string, Record>, url: string, contentHash: Option<string>,
                            status: Status, errorMessage: Option<string>, now: nat, other: string)
    ensures StoredHash(Saved(rows, url, contentHash, status, errorMessage, now), url) == contentHash
    ensures other != url ==>
      StoredHash(Saved(rows, url, contentHash, status, errorMessage, now), other) == StoredHash(rows, other)
  {
  }

  // ---------------------------------------------------------------------
  // Histories of saves

  /** The arguments of one `save_page` call, with the clock reading it took. */
  datatype Save = Save(url: string, contentHash: Option<string>, status: Status,
                       errorMessage: Option<string>, now: nat)

  /** The table after the saves, in order, starting from `rows`. */
  function Replay(rows: map<string, Record>, saves: seq<Save>): map<string, Record>
    decreases |saves|
  {
    if saves == [] then rows
    else
      var s := saves[|saves| - 1];
      Saved(Replay(rows, saves[..|saves| - 1]), s.url, s.contentHash, s.status, s.errorMessage, s.now)
  }

  /** The clock reading of the latest save that recorded CHANGED for `url`. */
  function LatestChange(saves: seq<Save>, url: string): Option<nat>
    decreases |saves|
  {
    if saves == [] then None
    else
      var s := saves[|saves| - 1];
      if s.url == url && s.status == Changed then Some(s.now)
      else LatestChange(saves[..|saves| - 1], url)
  }

  function SavedUrls(saves: seq<Save>): set<string> {
    set i | 0 <= i < |saves| :: saves[i].url
  }

  /** Rows are only ever added: the keys are the initial ones plus every saved URL. */
  lemma {:induction false} ReplayKeys(rows: map<string, Record>, saves: seq<Save>)
    ensures Replay(rows, saves).Keys == rows.Keys + SavedUrls(saves)
    decreases |saves|
  {
    if saves != [] {
      var init := saves[..|saves| - 1];
      ReplayKeys(rows, init);
      assert SavedUrls(saves) == SavedUrls(init) + {saves[|saves| - 1].url} by {
        forall u | u in SavedUrls(saves) ensures u in SavedUrls(init) + {saves[|saves| - 1].url} {
          var i :| 0 <= i < |saves| && saves[i].url == u;
          if i < |saves| - 1 {
            assert init[i].url == u;
          }
        }
        forall u | u in SavedUrls(init) ensures u in SavedUrls(saves) {
          var i :| 0 <= i < |init| && init[i].url == u;
          assert saves[i].url == u;
        }
      }
    }
  }

  lemma {:induction false} NoChangeWithoutSave(saves: seq<Save>, url: string)
    requires url !in SavedUrls(saves)
    ensures LatestChange(saves, url) == None
    decreases |saves|
  {
    if saves != [] {
      var init := saves[..|saves| - 1];
      assert url != saves[|saves| - 1].url;
      assert url !in SavedUrls(init);
      NoChangeWithoutSave(init, url);
    }
  }

  /** `last_changed` of a row is the clock reading of the latest save that
      recorded CHANGED for it; with no such save it is what the row held at the
      start, or None for a row the saves created. */
  lemma {:induction false} LastChangedIsLatestChange(rows: map<string, Record>, saves: seq<Save>, url: string)
    requires url in Replay(rows, saves)
    ensures Replay(rows, saves)[url].lastChanged ==
      match LatestChange(saves, url)
      case Some(t) => Some(t)
      case None => if url in rows then rows[url].lastChanged else None
    decreases |saves|
  {
    if saves != [] {
      var init := saves[..|saves| - 1];
      var s := saves[|saves| - 1];
      var before := Replay(rows, init);
      if url in before {
        LastChangedIsLatestChange(rows, init, url);
      } else {
        assert s.url == url;
        ReplayKeys(rows, init);
        NoChangeWithoutSave(init, url);
      }
    }
  }

  /** Once a row has a `last_changed` time, no later save clears it. */
  lemma LastChangedNeverCleared(rows: map<string, Record>, saves: seq<Save>, url: string)
    requires url in rows && rows[url].lastChanged.Some?
    ensures url in Replay(rows, saves) && Replay(rows, saves)[url].lastChanged.Some?
  {
    ReplayKeys(rows, saves);
    LastChangedIsLatestChange(rows, saves, url);
  }

  class PageTable {
    /** The `pages` table, keyed by URL (the PRIMARY KEY keeps one row per URL). */
    var rows: map<string, Record>

    /** `init_db` on a fresh database: the table exists and is empty. */
    constructor ()
      ensures rows == map[]
    {
      rows := map[];
    }

    /** `save_page` (database.py:37-57). */
    method SavePage(url: string, contentHash: Option<string>, status: Status,
                    errorMessage: Option<string>, now: nat)
      modifies this
      ensures rows == Saved(old(rows), url, contentHash, status, errorMessage, now)
    {
      var lastChanged: Option<nat> := None;
      if url in rows {
        lastChanged := rows[url].lastChanged;
      }
      if status == Changed {
        lastChanged := Some(now);
      }
      rows := rows[url := Record(contentHash, status, now, lastChanged, errorMessage)];
    }

    /** `get_page` (database.py:28-34). */
    method GetPage(url: string) returns (hash: Option<string>)
      ensures hash == StoredHash(rows, url)
      ensures url !in rows ==> hash == None
      ensures url in rows ==> hash == rows[url].contentHash
    {
      if url in rows {
        hash := rows[url].contentHash;
      } else {
        hash := None;
      }
    }

    /** `get_all_pages` (database.py:59-68): every row exactly once, newest check first. */
    method AllPages() returns (list: seq<Listing>)
      ensures NewestFirst(list)
      ensures DistinctUrls(list)
      ensures Urls(list) == rows.Keys
      ensures forall i :: 0 <= i < |list| ==>
        list[i].url in rows && list[i] == ListingOf(list[i].url, rows[list[i].url])
    {
      list := [];
      var pending := rows.Keys;
      while pending != {}
        invariant pending <= rows.Keys
        invariant NewestFirst(list) && DistinctUrls(list)
        invariant Urls(list) == rows.Keys - pending
        invariant forall i :: 0 <= i < |list| ==>
          list[i].url in rows && list[i] == ListingOf(list[i].url, rows[list[i].url])
        decreases pending
      {
        var url :| url in pending;
        var e := ListingOf(url, rows[url]);
        InsertKeepsDistinct(list, e);
        InsertNewestFirst(list, e);
        var next := Insert(list, e);
        forall i | 0 <= i < |next|
          ensures next[i].url in rows && next[i] == ListingOf(next[i].url, rows[next[i].url])
        {
          assert next[i] in multiset(next);
          if next[i] != e {
            assert next[i] in multiset(list);
          }
        }
        list := next;
        pending := pending - {url};
      }
    }
  }
}

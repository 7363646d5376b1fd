/**
 * `CreateWikiJson`: an in-memory copy of the registry, keyed by database name, that is
 * filled from `cw_wikis` on first use, and the import of such a copy back into the
 * registry. JSON encoding and decoding are the identity on the copy's entries.
 */
module CreateWikiJson {
  import opened Wrappers
  import opened Php
  import opened Assoc
  import opened Database

  /** One entry of the copy: a registry row without its creation time. */
  datatype Entry = Entry(
    sitename: string,
    language: string,
    private: bool,
    closed: bool,
    inactive: bool,
    category: string,
    url: string,
    settings: Settings)

  /** The entry `load` makes of a registry row. */
  function EntryOf(row: WikiRow): Entry {
    Entry(row.sitename, row.language, row.private, row.closed, row.inactive, row.category, row.url, row.settings)
  }

  /**
   * The copy after `load` has read `table` into `cache`: each registered name's entry is
   * set, and entries the table does not mention are kept (the copy is never cleared).
   */
  function LoadedFrom(cache: seq<(string, Entry)>, table: seq<(string, WikiRow)>): seq<(string, Entry)> {
    if table == [] then cache
    else
      var n := |table| - 1;
      Put(LoadedFrom(cache, table[..n]), table[n].0, EntryOf(table[n].1))
  }

  /** `load` keys each registered wiki's entry by its name. */
  lemma {:induction false} LoadedGet(cache: seq<(string, Entry)>, table: seq<(string, WikiRow)>, dbname: string)
    requires Distinct(table)
    ensures Get(LoadedFrom(cache, table), dbname) ==
              if Has(table, dbname) then Some(EntryOf(Get(table, dbname).value)) else Get(cache, dbname)
  {
    if table != [] {
      var n := |table| - 1;
      assert Distinct(table[..n]);
      LoadedGet(cache, table[..n], dbname);
      GetLast(table, dbname);
    }
  }

  /** The registry row an import writes for an entry: an insert has no creation time, an update keeps it. */
  function ImportedRow(existing: Option<WikiRow>, e: Entry): WikiRow {
    WikiRow(e.sitename, e.language, e.private, e.closed, e.inactive, e.category, e.url,
      if existing.Some? then existing.value.creation else None, e.settings)
  }

  /** The registry after the import loop has upserted `entries`, in order. */
  function ImportAfter(wikis: seq<(string, WikiRow)>, entries: seq<(string, Entry)>): seq<(string, WikiRow)> {
    if entries == [] then wikis
    else
      var n := |entries| - 1;
      var before := ImportAfter(wikis, entries[..n]);
      Put(before, entries[n].0, ImportedRow(Get(before, entries[n].0), entries[n].1))
  }

  /** Every imported name gets the entry's fields; names the file does not list are untouched. */
  lemma {:induction false} ImportGet(wikis: seq<(string, WikiRow)>, entries: seq<(string, Entry)>, dbname: string)
    requires Distinct(entries)
    ensures Get(ImportAfter(wikis, entries), dbname) ==
              if Has(entries, dbname) then Some(ImportedRow(Get(wikis, dbname), Get(entries, dbname).value))
              else Get(wikis, dbname)
  {
    if entries != [] {
      var n := |entries| - 1;
      assert Distinct(entries[..n]);
      ImportGet(wikis, entries[..n], dbname);
      GetLast(entries, dbname);
      if entries[n].0 == dbname {
        assert !Has(entries[..n], dbname);
      }
    }
  }

  /** An import that rewrites every listed row with what it already holds changes nothing. */
  lemma {:induction false} ImportUnchanged(wikis: seq<(string, WikiRow)>, entries: seq<(string, Entry)>)
    requires forall i :: 0 <= i < |entries| ==>
               Has(wikis, entries[i].0) && EntryOf(Get(wikis, entries[i].0).value) == entries[i].1
    ensures ImportAfter(wikis, entries) == wikis
  {
    if entries != [] {
      var n := |entries| - 1;
      ImportUnchanged(wikis, entries[..n]);
      var (k, e) := entries[n];
      var row := Get(wikis, k).value;
      assert ImportedRow(Some(row), e) == row;
      PutExistingRows(wikis, k, row);
      assert wikis[IndexOf(wikis, k) := (k, row)] == wikis;
    }
  }

  /**
   * Importing what `load` read from the registry leaves the registry as it was: every
   * field the copy holds is written back unchanged, and the creation time is kept.
   */
  lemma LoadImportRoundTrip(wikis: seq<(string, WikiRow)>)
    requires Distinct(wikis)
    ensures ImportAfter(wikis, LoadedFrom([], wikis)) == wikis
  {
    var copy := LoadedFrom([], wikis);
    forall i | 0 <= i < |copy|
      ensures Has(wikis, copy[i].0) && EntryOf(Get(wikis, copy[i].0).value) == copy[i].1
    {
      LoadedGet([], wikis, copy[i].0);
      assert Get(copy, copy[i].0).Some?;
      assert Get(copy, copy[i].0) == Some(copy[i].1) by {
        LoadedDistinct(wikis);
        DistinctGet(copy, i);
      }
    }
    ImportUnchanged(wikis, copy);
  }

  /** A copy loaded into an empty cache has each name once. */
  lemma LoadedDistinct(table: seq<(string, WikiRow)>)
    ensures Distinct(LoadedFrom([], table))
  {
    if table != [] {
      LoadedDistinct(table[..|table| - 1]);
    }
  }

  /** What a file holds: nothing, something that does not decode to an array, or entries by name. */
  datatype ImportFile = Missing | NotArray | Entries(entries: seq<(string, Entry)>)

  class CreateWikiJson {
    /** `$wgCreateWikiCacheDirectory` when the object was made. */
    var cacheDir: string
    /** The copy, keyed by database name. */
    var wikis: seq<(string, Entry)>

    /** A handler with an empty copy; making the cache directory is not modelled. */
    constructor(cacheDir: string)
      ensures this.cacheDir == cacheDir && wikis == []
    {
      this.cacheDir := cacheDir;
      wikis := [];
    }

    /** `load`: reads every registry row into the copy. */
    method Load(db: Db)
      modifies this`wikis
      ensures wikis == LoadedFrom(old(wikis), db.wikis)
    {
      ghost var cache := wikis;
      var i := 0;
      while i < |db.wikis|
        invariant 0 <= i <= |db.wikis|
        invariant wikis == LoadedFrom(cache, db.wikis[..i])
      {
        assert db.wikis[..i + 1][..i] == db.wikis[..i];
        var (dbname, row) := db.wikis[i];
        wikis := Put(wikis, dbname, EntryOf(row));
        i := i + 1;
      }
      assert db.wikis[..i] == db.wikis;
    }

    /** `getWikis`: the copy, loaded first when it is empty. */
    method GetWikis(db: Db) returns (r: seq<(string, Entry)>)
      modifies this`wikis
      ensures wikis == if old(wikis) == [] then LoadedFrom([], db.wikis) else old(wikis)
      ensures r == wikis
    {
      if wikis == [] {
        Load(db);
      }
      r := wikis;
    }

    /** `getWiki`: one entry of the copy (loaded first when it is empty), or nothing (`null`). */
    method GetWiki(db: Db, dbname: string) returns (r: Option<Entry>)
      modifies this`wikis
      ensures wikis == if old(wikis) == [] then LoadedFrom([], db.wikis) else old(wikis)
      ensures r == Get(wikis, dbname)
    {
      if wikis == [] {
        Load(db);
      }
      r := Get(wikis, dbname);
    }

    /**
     * `importFromFile`: a missing file or one that does not decode to an array gives
     * `false` and no write; otherwise every entry is upserted by name, and `true`.
     */
    method ImportFromFile(db: Db, file: ImportFile) returns (ok: bool)
      requires db.Valid()
      requires file.Entries? ==> Distinct(file.entries)
      requires file.Entries? ==> forall i :: 0 <= i < |file.entries| ==> Distinct(file.entries[i].1.settings)
      modifies db`wikis
      ensures db.Valid()
      ensures ok <==> file.Entries?
      ensures db.wikis == if ok then ImportAfter(old(db.wikis), file.entries) else old(db.wikis)
    {
      if file.Missing? || file.NotArray? {
        return false;
      }
      ImportEntries(db, file.entries);
      ok := true;
    }

    /** The import loop: one upsert per entry, in file order. */
    static method ImportEntries(db: Db, entries: seq<(string, Entry)>)
      requires db.Valid()
      requires forall i :: 0 <= i < |entries| ==> Distinct(entries[i].1.settings)
      modifies db`wikis
      ensures db.Valid()
      ensures db.wikis == ImportAfter(old(db.wikis), entries)
    {
      ghost var start := db.wikis;
      var i := 0;
      while i < |entries|
        invariant 0 <= i <= |entries|
        invariant db.wikis == ImportAfter(start, entries[..i])
        invariant db.Valid()
      {
        assert entries[..i + 1][..i] == entries[..i];
        Upsert(db, entries[i].0, entries[i].1);
        i := i + 1;
      }
      assert entries[..i] == entries;
    }

    /** One upsert of the import loop. */
    static method Upsert(db: Db, dbname: string, e: Entry)
      requires db.Valid()
      requires Distinct(e.settings)
      modifies db`wikis
      ensures db.Valid()
      ensures db.wikis == Put(old(db.wikis), dbname, ImportedRow(Get(old(db.wikis), dbname), e))
    {
      var row := ImportedRow(Get(db.wikis, dbname), e);
      ghost var before := db.wikis;
      if Has(before, dbname) {
        PutExistingRows(before, dbname, row);
      }
      db.wikis := Put(db.wikis, dbname, row);
      assert forall x :: 0 <= x < |db.wikis| ==> db.wikis[x] in before || db.wikis[x] == (dbname, row);
    }
  }
}

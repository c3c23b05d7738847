/** The URL-to-text cache of app/db/cache.py: one SQLite table whose primary
    key is the URL, read by `get` and written by `set` with INSERT OR REPLACE.
    The table is a map from URL to row, so there is at most one row per URL
    by construction; the clock is a parameter of `Set`. */
module DbCache {
  import opened Wrappers

  /** The content and timestamp columns of one row. */
  datatype Row = Row(content: string, timestamp: real)

  type Table = map<string, Row>

  /** SELECT content FROM cache WHERE url = ?: the stored content, or None. */
  function Lookup(table: Table, url: string): (r: Option<string>)
    ensures r.Some? <==> url in table
    ensures r.Some? ==> r.value == table[url].content
  {
    if url in table then Some(table[url].content) else None
  }

  /** INSERT OR REPLACE of (url, content, now). */
  function Upsert(table: Table, url: string, content: string, now: real): (t: Table)
    ensures t.Keys == table.Keys + {url}
    ensures url in t && t[url] == Row(content, now)
    ensures forall u :: u in table && u != url ==> t[u] == table[u]
  {
    table[url := Row(content, now)]
  }

  /** After set(u, c), get(u) returns exactly c, stamped with the time of that call. */
  lemma GetAfterSet(table: Table, url: string, content: string, now: real)
    ensures Lookup(Upsert(table, url, content, now), url) == Some(content)
    ensures Upsert(table, url, content, now)[url].timestamp == now
  {
  }

  /** set(u, c) leaves every other URL's entry as it was. */
  lemma SetKeepsOthers(table: Table, url: string, content: string, now: real, other: string)
    requires other != url
    ensures Lookup(Upsert(table, url, content, now), other) == Lookup(table, other)
    ensures other in table ==> Upsert(table, url, content, now)[other] == table[other]
  {
  }

  /** Setting a URL that is already present replaces its row instead of adding one. */
  lemma SetReplacesRow(table: Table, url: string, content: string, now: real)
    ensures |Upsert(table, url, content, now)| == if url in table then |table| else |table| + 1
  {
    var t := Upsert(table, url, content, now);
    if url in table {
      assert t.Keys == table.Keys;
    } else {
      assert t.Keys == table.Keys + {url};
    }
  }

  /** Two sets of the same URL leave one row holding the later content and timestamp. */
  lemma LastWriteWins(table: Table, url: string, c1: string, t1: real, c2: string, t2: real)
    ensures Upsert(Upsert(table, url, c1, t1), url, c2, t2) == Upsert(table, url, c2, t2)
  {
  }

  /** A get on a URL never set returns None. */
  lemma GetNeverSet(table: Table, url: string)
    requires url !in table
    ensures Lookup(table, url) == None
  {
  }

  /** The cache object: an open connection to the table. */
  class Cache {
    var table: Table

    /** Opening the database: the table keeps whatever rows it already holds
        (CREATE TABLE IF NOT EXISTS). */
    constructor (stored: Table)
      ensures table == stored
    {
      table := stored;
    }

    /** get(url): reads the table and changes nothing. */
    method Get(url: string) returns (r: Option<string>)
      ensures r == Lookup(table, url)
      ensures r.Some? <==> url in table
    {
      if url in table {
        r := Some(table[url].content);
      } else {
        r := None;
      }
    }

    /** set(url, content): upserts the row for url, stamped with now. */
    method Set(url: string, content: string, now: real)
      modifies this
      ensures table == Upsert(old(table), url, content, now)
    {
      table := table[url := Row(content, now)];
    }
  }
}

/**
 * The mapping store of src/urlshortener/db.py: one SQLite table `urls`
 * keyed by `short_code`, holding `long_url` and `created_at`.
 */
module Db {
  import opened Wrappers

  /** A row of `urls` without its key. */
  datatype Row = Row(longUrl: string, createdAt: nat)

  /** A row as `get_all_urls` hands it out. */
  datatype Mapping = Mapping(shortCode: string, longUrl: string, createdAt: nat)

  /** The committed contents of `urls`; the primary key is the map key. */
  type Table = map<string, Row>

  /**
   * The two writing statements. `INSERT OR REPLACE` leaves `created_at`
   * to its default, CURRENT_TIMESTAMP, which the caller supplies here.
   */
  datatype Statement =
    | InsertOrReplace(shortCode: string, longUrl: string, now: nat)
    | DeleteWhere(shortCode: string)

  /** The table after one statement has run and committed. */
  function Execute(t: Table, s: Statement): (t': Table)
    ensures s.InsertOrReplace? ==> t'.Keys == t.Keys + {s.shortCode}
    ensures s.InsertOrReplace? ==> t'[s.shortCode] == Row(s.longUrl, s.now)
    ensures s.DeleteWhere? ==> t'.Keys == t.Keys - {s.shortCode}
    ensures forall c :: c in t && c != s.shortCode ==> c in t' && t'[c] == t[c]
  {
    match s
    case InsertOrReplace(c, u, now) => t[c := Row(u, now)]
    case DeleteWhere(c) => t - {c}
  }

  /** `SELECT long_url FROM urls WHERE short_code = ?` */
  function Lookup(t: Table, shortCode: string): (r: Option<string>)
    ensures r.Some? <==> shortCode in t
    ensures r.Some? ==> r.value == t[shortCode].longUrl
  {
    if shortCode in t then Some(t[shortCode].longUrl) else None
  }

  /**
   * `s` is a possible result of `get_all_urls` on `t`: every stored
   * mapping exactly once, newest `created_at` first; rows with equal
   * `created_at` may come in any order.
   */
  ghost predicate Listing(t: Table, s: seq<Mapping>)
  {
    && (forall i :: 0 <= i < |s| ==> s[i].shortCode in t && t[s[i].shortCode] == Row(s[i].longUrl, s[i].createdAt))
    && (forall c :: c in t ==> exists i :: 0 <= i < |s| && s[i].shortCode == c)
    && (forall i, j :: 0 <= i < j < |s| ==> s[i].shortCode != s[j].shortCode)
    && (forall i, j :: 0 <= i < j < |s| ==> s[i].createdAt >= s[j].createdAt)
  }

  // ---------------------------------------------------------------------
  // Properties of the statements

  /** After `INSERT OR REPLACE` of (c, u), looking c up yields u. */
  lemma SaveThenGet(t: Table, c: string, u: string, now: nat)
    ensures Lookup(Execute(t, InsertOrReplace(c, u, now)), c) == Some(u)
  {
  }

  /** Saving one code leaves every other code's lookup as it was. */
  lemma SaveKeepsOthers(t: Table, c: string, u: string, now: nat, other: string)
    requires other != c
    ensures Lookup(Execute(t, InsertOrReplace(c, u, now)), other) == Lookup(t, other)
  {
  }

  /** Saving an existing code replaces its row: the row count does not grow. */
  lemma SaveReplacesRow(t: Table, c: string, u: string, now: nat)
    ensures |Execute(t, InsertOrReplace(c, u, now))| == if c in t then |t| else |t| + 1
  {
  }

  /** A second save of the same code overrides the first entirely. */
  lemma LastSaveWins(t: Table, c: string, u1: string, u2: string, t1: nat, t2: nat)
    ensures Execute(Execute(t, InsertOrReplace(c, u1, t1)), InsertOrReplace(c, u2, t2))
         == Execute(t, InsertOrReplace(c, u2, t2))
  {
  }

  /** After deleting c, looking c up yields nothing; other codes are untouched. */
  lemma DeleteThenGet(t: Table, c: string, other: string)
    ensures Lookup(Execute(t, DeleteWhere(c)), c) == None
    ensures other != c ==> Lookup(Execute(t, DeleteWhere(c)), other) == Lookup(t, other)
  {
  }

  /** Deleting an absent code changes nothing, so deleting twice is deleting once. */
  lemma DeleteIsIdempotent(t: Table, c: string)
    ensures c !in t ==> Execute(t, DeleteWhere(c)) == t
    ensures Execute(Execute(t, DeleteWhere(c)), DeleteWhere(c)) == Execute(t, DeleteWhere(c))
  {
  }

  // ---------------------------------------------------------------------
  // Properties of the listing

  /** Dropping the first entry of a listing lists the table without that code. */
  lemma {:induction false} ListingTail(t: Table, s: seq<Mapping>)
    requires Listing(t, s) && |s| > 0
    ensures Listing(t - {s[0].shortCode}, s[1..])
  {
    var t', s' := t - {s[0].shortCode}, s[1..];
    forall i | 0 <= i < |s'|
      ensures s'[i].shortCode in t' && t'[s'[i].shortCode] == Row(s'[i].longUrl, s'[i].createdAt)
    {
      assert s'[i] == s[i + 1];
      assert s[0].shortCode != s[i + 1].shortCode;
    }
    forall c | c in t'
      ensures exists i :: 0 <= i < |s'| && s'[i].shortCode == c
    {
      var i :| 0 <= i < |s| && s[i].shortCode == c;
      assert i != 0;
      assert s'[i - 1].shortCode == c;
    }
    forall i, j | 0 <= i < j < |s'|
      ensures s'[i].shortCode != s'[j].shortCode && s'[i].createdAt >= s'[j].createdAt
    {
      assert s'[i] == s[i + 1] && s'[j] == s[j + 1];
    }
  }

  /** A listing holds as many entries as the table has rows. */
  lemma {:induction false} ListingCount(t: Table, s: seq<Mapping>)
    requires Listing(t, s)
    ensures |s| == |t|
    decreases |s|
  {
    if |s| == 0 {
      assert forall c :: c !in t;
      assert t == map[];
    } else {
      ListingTail(t, s);
      ListingCount(t - {s[0].shortCode}, s[1..]);
      assert (t - {s[0].shortCode}).Keys == t.Keys - {s[0].shortCode};
    }
  }

  /**
   * `INSERT OR REPLACE` gives the row a fresh `created_at`: when the clock
   * is ahead of every stored row, the saved mapping heads every listing,
   * even when it replaced an older row.
   */
  lemma {:induction false} SavedRowListedFirst(t: Table, c: string, u: string, now: nat, s: seq<Mapping>)
    requires forall k :: k in t ==> t[k].createdAt < now
    requires Listing(Execute(t, InsertOrReplace(c, u, now)), s)
    ensures |s| > 0 && s[0] == Mapping(c, u, now)
  {
    var t' := Execute(t, InsertOrReplace(c, u, now));
    assert c in t';
    var i :| 0 <= i < |s| && s[i].shortCode == c;
    assert s[0].createdAt >= s[i].createdAt == now;
    assert s[0].shortCode == c;
  }

  // ---------------------------------------------------------------------
  // The database

  /**
   * The SQLite database file: whether `urls` exists yet, and its committed
   * contents. Every mutation runs in its own transaction.
   */
  class Database {
    var initialized: bool
    var table: Table

    /** Without the schema there are no rows. */
    ghost predicate Valid()
      reads this
    {
      !initialized ==> table == map[]
    }

    /** A fresh database file: no schema yet. */
    constructor ()
      ensures Valid() && !initialized && table == map[]
    {
      initialized := false;
      table := map[];
    }

    /** `init_db`: `CREATE TABLE IF NOT EXISTS urls`; never touches existing rows. */
    method InitDb()
      requires Valid()
      modifies this
      ensures Valid() && initialized
      ensures table == old(table)
    {
      initialized := true;
    }

    /**
     * One statement inside `get_connection`: the statement runs on the
     * connection's uncommitted view, which is committed on success and
     * rolled back when anything raises. `fail` stands for a storage
     * error (connect, execute or commit); a missing table fails too.
     */
    method Transaction(s: Statement, fail: bool) returns (ok: bool)
      requires Valid()
      modifies this`table
      ensures Valid()
      ensures ok == (initialized && !fail)
      ensures table == if ok then Execute(old(table), s) else old(table)
    {
      var pending := table;
      if !initialized || fail {
        // rollback: the pending view is discarded
        return false;
      }
      pending := Execute(pending, s);
      table := pending;
      ok := true;
    }

    /** `save_url`: upsert; `False` (and no change) on a storage error. */
    method SaveUrl(shortCode: string, longUrl: string, now: nat, fail: bool) returns (ok: bool)
      requires Valid()
      modifies this`table
      ensures Valid()
      ensures ok == (initialized && !fail)
      ensures ok ==> table == old(table)[shortCode := Row(longUrl, now)]
      ensures !ok ==> table == old(table)
    {
      ok := Transaction(InsertOrReplace(shortCode, longUrl, now), fail);
    }

    /** `delete_url`: `True` whether or not the code existed; `False` (and no change) on a storage error. */
    method DeleteUrl(shortCode: string, fail: bool) returns (ok: bool)
      requires Valid()
      modifies this`table
      ensures Valid()
      ensures ok == (initialized && !fail)
      ensures ok ==> table == old(table) - {shortCode}
      ensures !ok ==> table == old(table)
    {
      ok := Transaction(DeleteWhere(shortCode), fail);
    }

    /** `get_long_url`: an exact-key read of the committed table. */
    function GetLongUrl(shortCode: string): (r: Option<string>)
      reads this
      requires Valid() && initialized
      ensures r.Some? <==> shortCode in table
      ensures r.Some? ==> r.value == table[shortCode].longUrl
    {
      Lookup(table, shortCode)
    }

    /**
     * `get_all_urls`: `ORDER BY created_at DESC`. The sort SQLite runs is
     * modelled as repeatedly taking a newest remaining row.
     */
    method GetAllUrls() returns (urls: seq<Mapping>)
      requires Valid() && initialized
      ensures Listing(table, urls)
    {
      var remaining := table;
      urls := [];
      while remaining != map[]
        invariant Drained(table, remaining, urls)
        decreases remaining.Keys
      {
        var c := Newest(remaining);
        DrainStep(table, remaining, urls, c);
        urls := urls + [Mapping(c, remaining[c].longUrl, remaining[c].createdAt)];
        remaining := remaining - {c};
      }
    }
  }

  /**
   * The loop state of `GetAllUrls`: `urls` lists, newest first, the rows of
   * `t` already taken out of `remaining`, each at least as new as any row
   * still remaining.
   */
  ghost predicate Drained(t: Table, remaining: Table, urls: seq<Mapping>)
  {
    && Taken(t, remaining, urls)
    && Covered(t, remaining, urls)
    && Distinct(urls)
    && NewestFirst(urls)
    && AheadOf(urls, remaining)
  }

  /** Every listed entry is a row of `t` no longer remaining; remaining rows are rows of `t`. */
  ghost predicate Taken(t: Table, remaining: Table, urls: seq<Mapping>)
  {
    && (forall c :: c in remaining ==> c in t && remaining[c] == t[c])
    && (forall i :: 0 <= i < |urls| ==>
          urls[i].shortCode in t && t[urls[i].shortCode] == Row(urls[i].longUrl, urls[i].createdAt)
          && urls[i].shortCode !in remaining)
  }

  /** Every row of `t` is either still remaining or already listed. */
  ghost predicate Covered(t: Table, remaining: Table, urls: seq<Mapping>)
  {
    forall c :: c in t && c !in remaining ==> exists i :: 0 <= i < |urls| && urls[i].shortCode == c
  }

  ghost predicate Distinct(urls: seq<Mapping>)
  {
    forall i, j :: 0 <= i < j < |urls| ==> urls[i].shortCode != urls[j].shortCode
  }

  ghost predicate NewestFirst(urls: seq<Mapping>)
  {
    forall i, j :: 0 <= i < j < |urls| ==> urls[i].createdAt >= urls[j].createdAt
  }

  ghost predicate AheadOf(urls: seq<Mapping>, remaining: Table)
  {
    forall i, c :: 0 <= i < |urls| && c in remaining ==> urls[i].createdAt >= remaining[c].createdAt
  }

  /** Moving a newest remaining row to the end of `urls` keeps `Drained`. */
  lemma DrainStep(t: Table, remaining: Table, urls: seq<Mapping>, c: string)
    requires Drained(t, remaining, urls)
    requires c in remaining
    requires forall k :: k in remaining ==> remaining[k].createdAt <= remaining[c].createdAt
    ensures Drained(t, remaining - {c}, urls + [Mapping(c, remaining[c].longUrl, remaining[c].createdAt)])
  {
    var m := Mapping(c, remaining[c].longUrl, remaining[c].createdAt);
    TakenStep(t, remaining, urls, c);
    CoveredStep(t, remaining, urls, c);
    DistinctStep(remaining, urls, m);
    NewestFirstStep(remaining, urls, c);
  }

  lemma TakenStep(t: Table, remaining: Table, urls: seq<Mapping>, c: string)
    requires Taken(t, remaining, urls) && c in remaining
    ensures Taken(t, remaining - {c}, urls + [Mapping(c, remaining[c].longUrl, remaining[c].createdAt)])
  {
  }

  lemma CoveredStep(t: Table, remaining: Table, urls: seq<Mapping>, c: string)
    requires Covered(t, remaining, urls) && c in remaining
    ensures Covered(t, remaining - {c}, urls + [Mapping(c, remaining[c].longUrl, remaining[c].createdAt)])
  {
    var urls' := urls + [Mapping(c, remaining[c].longUrl, remaining[c].createdAt)];
    forall k | k in t && k !in remaining - {c}
      ensures exists i :: 0 <= i < |urls'| && urls'[i].shortCode == k
    {
      if k == c {
        assert urls'[|urls|].shortCode == k;
      } else {
        var i :| 0 <= i < |urls| && urls[i].shortCode == k;
        assert urls'[i].shortCode == k;
      }
    }
  }

  lemma DistinctStep(remaining: Table, urls: seq<Mapping>, m: Mapping)
    requires Distinct(urls) && m.shortCode in remaining
    requires forall i :: 0 <= i < |urls| ==> urls[i].shortCode !in remaining
    ensures Distinct(urls + [m])
  {
  }

  lemma NewestFirstStep(remaining: Table, urls: seq<Mapping>, c: string)
    requires NewestFirst(urls) && AheadOf(urls, remaining) && c in remaining
    requires forall k :: k in remaining ==> remaining[k].createdAt <= remaining[c].createdAt
    ensures var urls' := urls + [Mapping(c, remaining[c].longUrl, remaining[c].createdAt)];
      NewestFirst(urls') && AheadOf(urls', remaining - {c})
  {
  }

  /** A key of `t` whose row is at least as new as every other. */
  method Newest(t: Table) returns (c: string)
    requires t != map[]
    ensures c in t
    ensures forall k :: k in t ==> t[k].createdAt <= t[c].createdAt
  {
    var todo := t.Keys;
    assert todo != {} by {
      var k :| k in t;
      assert k in todo;
    }
    c :| c in todo;
    todo := todo - {c};
    while todo != {}
      invariant todo <= t.Keys
      invariant c in t
      invariant forall k :: k in t && k !in todo ==> t[k].createdAt <= t[c].createdAt
      decreases todo
    {
      var k :| k in todo;
      if t[k].createdAt > t[c].createdAt {
        c := k;
      }
      todo := todo - {k};
    }
  }
}

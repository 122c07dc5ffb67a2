/**
 * The relational store the entity records read and write: three tables whose
 * ids are handed out by AUTOINCREMENT and never reused, and whose text and
 * foreign-key columns are NOT NULL.  Foreign keys are not enforced, because the
 * connections that write never switch the pragma on.
 */
module Store {
  import opened Wrappers

  /** One stored row: its primary key and the remaining columns. */
  datatype Row<D> = Row(id: int, data: D)

  datatype AuthorFields = AuthorFields(name: string)
  datatype MagazineFields = MagazineFields(name: string, category: string)
  datatype ArticleFields = ArticleFields(title: string, authorId: int, magazineId: int)

  type AuthorTable = seq<Row<AuthorFields>>
  type MagazineTable = seq<Row<MagazineFields>>
  type ArticleTable = seq<Row<ArticleFields>>

  // ---------------------------------------------------------------------------
  // NOT NULL columns: the row an INSERT or UPDATE would write, or None when one
  // of the columns would receive NULL and the statement fails.

  function AuthorColumns(name: Option<string>): (r: Option<AuthorFields>)
    ensures r.Some? <==> name.Some?
    ensures r.Some? ==> r.value.name == name.value
  {
    match name
    case None => None
    case Some(n) => Some(AuthorFields(n))
  }

  function MagazineColumns(name: Option<string>, category: Option<string>): (r: Option<MagazineFields>)
    ensures r.Some? <==> name.Some? && category.Some?
    ensures r.Some? ==> r.value.name == name.value && r.value.category == category.value
  {
    if name.None? || category.None? then None
    else Some(MagazineFields(name.value, category.value))
  }

  function ArticleColumns(title: Option<string>, authorId: Option<int>, magazineId: Option<int>): (r: Option<ArticleFields>)
    ensures r.Some? <==> title.Some? && authorId.Some? && magazineId.Some?
    ensures r.Some? ==> r.value.title == title.value && r.value.authorId == authorId.value
                        && r.value.magazineId == magazineId.value
  {
    if title.None? || authorId.None? || magazineId.None? then None
    else Some(ArticleFields(title.value, authorId.value, magazineId.value))
  }

  // ---------------------------------------------------------------------------
  // Table contents

  ghost predicate UniqueIds<D>(t: seq<Row<D>>)
  {
    forall i, j :: 0 <= i < j < |t| ==> t[i].id != t[j].id
  }

  ghost predicate NoDuplicates<T>(s: seq<T>)
  {
    forall i, j :: 0 <= i < j < |s| ==> s[i] != s[j]
  }

  /** A table whose largest ever issued id is `last`: ids are unique, positive and at most `last`. */
  ghost predicate WellFormed<D>(t: seq<Row<D>>, last: int)
  {
    0 <= last && UniqueIds(t) && forall x :: x in t ==> 0 < x.id <= last
  }

  /** `SELECT * FROM t WHERE id = ?`, first match. */
  function Find<D>(t: seq<Row<D>>, id: int): (r: Option<Row<D>>)
    ensures r.Some? ==> r.value in t && r.value.id == id
    ensures r.None? ==> forall x :: x in t ==> x.id != id
  {
    if t == [] then None
    else if t[0].id == id then Some(t[0])
    else Find(t[1..], id)
  }

  /** `UPDATE t SET <columns> = d WHERE id = ?`. */
  function Replace<D>(t: seq<Row<D>>, id: int, d: D): (r: seq<Row<D>>)
    ensures |r| == |t|
    ensures forall i :: 0 <= i < |t| ==> r[i] == (if t[i].id == id then Row(id, d) else t[i])
  {
    if t == [] then []
    else [if t[0].id == id then Row(id, d) else t[0]] + Replace(t[1..], id, d)
  }

  /** A WHERE clause: the rows satisfying `p`, each row as often as it is stored. */
  function Filter<D(!new)>(t: seq<Row<D>>, p: Row<D> -> bool): (r: seq<Row<D>>)
    ensures forall x :: x in r <==> x in t && p(x)
    ensures |r| <= |t|
    ensures UniqueIds(t) ==> UniqueIds(r)
  {
    if t == [] then []
    else
      var rest := Filter(t[1..], p);
      if p(t[0]) then
        assert UniqueIds(t) ==> forall x :: x in rest ==> x.id != t[0].id by {
          if UniqueIds(t) {
            forall x | x in rest ensures x.id != t[0].id {
              var j :| 0 <= j < |t[1..]| && t[1..][j] == x;
              assert t[j + 1] == x;
            }
          }
        }
        [t[0]] + rest
      else rest
  }

  /** SELECT DISTINCT over a projected column. */
  function Dedup<T(==,!new)>(s: seq<T>): (r: seq<T>)
    ensures forall x :: x in r <==> x in s
    ensures NoDuplicates(r)
  {
    if s == [] then []
    else if s[0] in s[1..] then Dedup(s[1..])
    else [s[0]] + Dedup(s[1..])
  }

  // ---------------------------------------------------------------------------
  // Lemmas about the table operations

  lemma {:induction false} FindInReplace<D>(t: seq<Row<D>>, id: int, d: D, k: int)
    ensures Find(Replace(t, id, d), k) ==
            if k == id && Find(t, id).Some? then Some(Row(id, d)) else Find(t, k)
  {
    if t != [] {
      assert Replace(t, id, d)[1..] == Replace(t[1..], id, d);
      FindInReplace(t[1..], id, d, k);
    }
  }

  lemma {:induction false} FindInAppend<D>(t: seq<Row<D>>, row: Row<D>, k: int)
    requires forall x :: x in t ==> x.id != row.id
    ensures Find(t + [row], k) == if k == row.id then Some(row) else Find(t, k)
  {
    if t != [] {
      assert (t + [row])[1..] == t[1..] + [row];
      FindInAppend(t[1..], row, k);
    }
  }

  /** A WHERE scan keeps each satisfying row exactly as many times as it is stored, and no other row. */
  lemma {:induction false} FilterCounts<D(!new)>(t: seq<Row<D>>, p: Row<D> -> bool, x: Row<D>)
    ensures multiset(Filter(t, p))[x] == if p(x) then multiset(t)[x] else 0
  {
    if t != [] {
      FilterCounts(t[1..], p, x);
      assert t == [t[0]] + t[1..];
    }
  }

  lemma {:induction false} FilterAppend<D(!new)>(t: seq<Row<D>>, row: Row<D>, p: Row<D> -> bool)
    ensures Filter(t + [row], p) == Filter(t, p) + (if p(row) then [row] else [])
  {
    if t == [] {
      assert [row][1..] == [];
    } else {
      assert (t + [row])[1..] == t[1..] + [row];
      FilterAppend(t[1..], row, p);
    }
  }

  // ---------------------------------------------------------------------------
  // save(): INSERT when the record has no id, else UPDATE of the row with its id

  /**
   * The effect of one save() on a table: `rows0`/`last0`/`key0` before, `rows`/`last`/`key`
   * after, `d` the columns to write (None when a NOT NULL column is NULL) and `s` how it ended.
   */
  ghost predicate Upserted<D>(rows0: seq<Row<D>>, last0: int, key0: Option<int>, d: Option<D>,
                              rows: seq<Row<D>>, last: int, key: Option<int>, s: Status)
    ensures Upserted(rows0, last0, key0, d, rows, last, key, s) ==>
              (key0.Some? ==> key == key0) &&
              (s != Ok ==> s == IntegrityError && d.None? && rows == rows0 && last == last0)
  {
    match key0
    case None =>
      if d.None? then s == IntegrityError && rows == rows0 && last == last0 && key == None
      else s == Ok && last == last0 + 1 && key == Some(last) && rows == rows0 + [Row(last, d.value)]
    case Some(k) =>
      key == key0 && last == last0 &&
      if Find(rows0, k).None? then s == Ok && rows == rows0
      else if d.None? then s == IntegrityError && rows == rows0
      else s == Ok && rows == Replace(rows0, k, d.value)
  }

  /**
   * What a caller may rely on after save(): the table stays well formed, an id once
   * assigned is kept, the saved row reads back with exactly the saved columns, every
   * other id reads back as before, and a failure leaves the table as it was.
   */
  lemma {:induction false} SaveThenFind<D>(rows0: seq<Row<D>>, last0: int, key0: Option<int>, d: Option<D>,
                                           rows: seq<Row<D>>, last: int, key: Option<int>, s: Status)
    requires WellFormed(rows0, last0)
    requires Upserted(rows0, last0, key0, d, rows, last, key, s)
    ensures WellFormed(rows, last) && last0 <= last
    ensures key0.Some? ==> key == key0
    ensures s == Ok <==> d.Some? || (key0.Some? && Find(rows0, key0.value).None?)
    ensures s != Ok ==> rows == rows0 && last == last0 && key == key0
    ensures s == Ok && d.Some? && (key0.None? || Find(rows0, key0.value).Some?) ==>
              key.Some? && Find(rows, key.value) == Some(Row(key.value, d.value))
    ensures key.Some? ==> forall k :: k != key.value ==> Find(rows, k) == Find(rows0, k)
  {
    match key0
    case None =>
      if d.Some? {
        var row := Row(last, d.value);
        forall k ensures Find(rows, k) == if k == row.id then Some(row) else Find(rows0, k) {
          FindInAppend(rows0, row, k);
        }
        forall i, j | 0 <= i < j < |rows| ensures rows[i].id != rows[j].id {
          if j == |rows0| {
            assert rows[i] in rows0;
          }
        }
      }
    case Some(k0) =>
      if Find(rows0, k0).Some? && d.Some? {
        forall k ensures Find(rows, k) == if k == k0 then Some(Row(k0, d.value)) else Find(rows0, k) {
          FindInReplace(rows0, k0, d.value, k);
        }
        forall x | x in rows ensures 0 < x.id <= last {
          var i :| 0 <= i < |rows| && rows[i] == x;
          assert rows0[i] in rows0;
        }
      }
  }

  /** One table of the store together with its AUTOINCREMENT counter. */
  class Table<D> {
    var rows: seq<Row<D>>
    /** The largest id ever handed out for this table (SQLite's sqlite_sequence entry). */
    var last: int

    ghost predicate Valid()
      reads this
    {
      WellFormed(rows, last)
    }

    constructor ()
      ensures Valid() && rows == [] && last == 0
    {
      rows := [];
      last := 0;
    }

    /** INSERT when `key` is None, else UPDATE ... WHERE id = key; `newKey` is the id afterwards. */
    method Upsert(key: Option<int>, d: Option<D>) returns (s: Status, newKey: Option<int>)
      requires Valid()
      modifies this
      ensures Valid()
      ensures Upserted(old(rows), old(last), key, d, rows, last, newKey, s)
    {
      match key {
        case None =>
          if d.None? {
            s, newKey := IntegrityError, None;
          } else {
            last := last + 1;
            rows := rows + [Row(last, d.value)];
            s, newKey := Ok, Some(last);
          }
        case Some(k) =>
          newKey := key;
          if Find(rows, k).None? {
            s := Ok;
          } else if d.None? {
            s := IntegrityError;
          } else {
            rows := Replace(rows, k, d.value);
            s := Ok;
          }
      }
      SaveThenFind(old(rows), old(last), key, d, rows, last, newKey, s);
    }
  }

  /** The database file: the three tables created by the schema. */
  class Database {
    const authors: Table<AuthorFields>
    const magazines: Table<MagazineFields>
    const articles: Table<ArticleFields>

    ghost predicate Valid()
      reads authors, magazines, articles
    {
      authors.Valid() && magazines.Valid() && articles.Valid()
    }

    /** A freshly created database: three empty tables. */
    constructor ()
      ensures Valid() && fresh(authors) && fresh(magazines) && fresh(articles)
      ensures authors.rows == [] && magazines.rows == [] && articles.rows == []
      ensures authors.last == 0 && magazines.last == 0 && articles.last == 0
    {
      authors := new Table();
      magazines := new Table();
      articles := new Table();
    }
  }
}

/**
 * The Author record (one row of `authors`) and the queries asked on behalf of an
 * author.  A query depends on the record only through its id, so it is a function
 * of that id (`key`, None for an author never saved) and of the tables it reads.
 */
module Authors {
  import opened Wrappers
  import opened Store

  class Author {
    var id: Option<int>
    var name: Option<string>

    /** Stores both values as given: the constructor does not go through the name setter. */
    constructor (id: Option<int>, name: Option<string>)
      ensures this.id == id && this.name == name
    {
      this.id := id;
      this.name := name;
    }

    /** The `name` setter: only a non-empty string is accepted. */
    method SetName(v: PyValue) returns (s: Status)
      modifies this`name
      ensures s == Ok <==> v.Str? && |v.s| > 0
      ensures s == Ok ==> name == Some(v.s)
      ensures s != Ok ==> s == ValueError && name == old(name)
    {
      if !v.Str? || |v.s| == 0 {
        return ValueError;
      }
      name := Some(v.s);
      s := Ok;
    }

    /** Materialises a stored row, without validation. */
    static method NewFromDb(row: Row<AuthorFields>) returns (a: Author)
      ensures fresh(a) && a.id == Some(row.id) && a.name == Some(row.data.name)
    {
      a := new Author(Some(row.id), Some(row.data.name));
    }

    /** The author stored under `key`, or null (Python's None) when there is none. */
    static method FindById(db: Database, key: Option<int>) returns (a: Author?)
      ensures a == null <==> key.None? || Find(db.authors.rows, key.value).None?
      ensures a != null ==> fresh(a) && a.id == key && a.name.Some? &&
                            Find(db.authors.rows, key.value) == Some(Row(key.value, AuthorFields(a.name.value)))
    {
      if key.None? {
        return null;
      }
      var row := Find(db.authors.rows, key.value);
      if row.None? {
        return null;
      }
      a := NewFromDb(row.value);
    }

    /** INSERT (capturing the new id) when the author has no id, otherwise UPDATE of its row. */
    method Save(db: Database) returns (s: Status)
      requires db.Valid()
      modifies this`id, db.authors
      ensures db.Valid()
      ensures Upserted(old(db.authors.rows), old(db.authors.last), old(id), AuthorColumns(name),
                       db.authors.rows, db.authors.last, id, s)
    {
      s, id := db.authors.Upsert(id, AuthorColumns(name));
    }
  }

  /** `articles()`: the articles whose author_id is the author's id. */
  function Articles(arts: ArticleTable, key: Option<int>): (r: ArticleTable)
    ensures forall x :: x in r <==> x in arts && key == Some(x.data.authorId)
    ensures key.None? ==> r == []
    ensures UniqueIds(arts) ==> UniqueIds(r)
  {
    var r := Filter(arts, (x: Row<ArticleFields>) => key == Some(x.data.authorId));
    assert r != [] ==> r[0] in r;
    r
  }

  /** `magazines()`: SELECT DISTINCT m.* over the inner join of magazines with the author's articles. */
  function Magazines(mags: MagazineTable, arts: ArticleTable, key: Option<int>): (r: MagazineTable)
    ensures forall m :: m in r <==>
              m in mags && exists x :: x in arts && key == Some(x.data.authorId) && x.data.magazineId == m.id
    ensures UniqueIds(mags) ==> UniqueIds(r)
  {
    var mine := Articles(arts, key);
    Filter(mags, (m: Row<MagazineFields>) => exists x :: x in mine && x.data.magazineId == m.id)
  }

  /** `topic_areas()`: the distinct categories of the joined magazines, None when the join is empty. */
  function TopicAreas(mags: MagazineTable, arts: ArticleTable, key: Option<int>): (r: Option<seq<string>>)
    ensures r.None? <==>
              forall m, x :: m in mags && x in arts && key == Some(x.data.authorId) ==> x.data.magazineId != m.id
    ensures r.Some? ==> NoDuplicates(r.value)
    ensures r.Some? ==> forall c :: c in r.value <==>
              exists m, x :: m in mags && x in arts && key == Some(x.data.authorId) &&
                             x.data.magazineId == m.id && m.data.category == c
  {
    var joined := Magazines(mags, arts, key);
    var categories := seq(|joined|, i requires 0 <= i < |joined| => joined[i].data.category);
    var topics := Dedup(categories);
    assert forall c :: c in topics <==> exists m :: m in joined && m.data.category == c by {
      forall c | c in categories ensures exists m :: m in joined && m.data.category == c {
        var i :| 0 <= i < |categories| && categories[i] == c;
        assert joined[i] in joined;
      }
      forall m | m in joined ensures m.data.category in categories {
        var i :| 0 <= i < |joined| && joined[i] == m;
        assert categories[i] == m.data.category;
      }
    }
    assert joined != [] ==> joined[0] in joined;
    if topics == [] then None else Some(topics)
  }

  /** topic_areas() is None exactly when magazines() is empty, and otherwise names a category of each of them. */
  lemma TopicsFollowMagazines(mags: MagazineTable, arts: ArticleTable, key: Option<int>)
    ensures TopicAreas(mags, arts, key).None? <==> Magazines(mags, arts, key) == []
    ensures TopicAreas(mags, arts, key).Some? ==>
              forall m :: m in Magazines(mags, arts, key) ==> m.data.category in TopicAreas(mags, arts, key).value
  {
    var joined := Magazines(mags, arts, key);
    if joined != [] {
      assert joined[0] in joined;
    }
  }
}

/**
 * The Magazine record (one row of `magazines`) and the relationship and aggregate
 * queries asked on behalf of a magazine, each a function of the magazine's id
 * (`key`, None for a magazine never saved) and of the tables it reads.
 */
module Magazines {
  import opened Wrappers
  import opened Store

  class Magazine {
    var id: Option<int>
    var name: Option<string>
    var category: Option<string>

    /** Stores the values as given: the constructor does not go through the setters. */
    constructor (id: Option<int>, name: Option<string>, category: Option<string>)
      ensures this.id == id && this.name == name && this.category == category
    {
      this.id := id;
      this.name := name;
      this.category := category;
    }

    /** The `name` setter: only a string of 2 to 16 characters is accepted. */
    method SetName(v: PyValue) returns (s: Status)
      modifies this`name
      ensures s == Ok <==> v.Str? && 2 <= |v.s| <= 16
      ensures s == Ok ==> name == Some(v.s)
      ensures s != Ok ==> s == ValueError && name == old(name)
    {
      if !v.Str? || !(2 <= |v.s| <= 16) {
        return ValueError;
      }
      name := Some(v.s);
      s := Ok;
    }

    /** The `category` setter: only a non-empty string is accepted. */
    method SetCategory(v: PyValue) returns (s: Status)
      modifies this`category
      ensures s == Ok <==> v.Str? && |v.s| > 0
      ensures s == Ok ==> category == Some(v.s)
      ensures s != Ok ==> s == ValueError && category == old(category)
    {
      if !v.Str? || |v.s| == 0 {
        return ValueError;
      }
      category := Some(v.s);
      s := Ok;
    }

    /** Materialises a stored row, without validation. */
    static method NewFromDb(row: Row<MagazineFields>) returns (m: Magazine)
      ensures fresh(m) && m.id == Some(row.id)
      ensures m.name == Some(row.data.name) && m.category == Some(row.data.category)
    {
      m := new Magazine(Some(row.id), Some(row.data.name), Some(row.data.category));
    }

    /** The magazine stored under `key`, or null (Python's None) when there is none. */
    static method FindById(db: Database, key: Option<int>) returns (m: Magazine?)
      ensures m == null <==> key.None? || Find(db.magazines.rows, key.value).None?
      ensures m != null ==> fresh(m) && m.id == key && m.name.Some? && m.category.Some? &&
                            Find(db.magazines.rows, key.value) ==
                            Some(Row(key.value, MagazineFields(m.name.value, m.category.value)))
    {
      if key.None? {
        return null;
      }
      var row := Find(db.magazines.rows, key.value);
      if row.None? {
        return null;
      }
      m := NewFromDb(row.value);
    }

    /** INSERT (capturing the new id) when the magazine has no id, otherwise UPDATE of its row. */
    method Save(db: Database) returns (s: Status)
      requires db.Valid()
      modifies this`id, db.magazines
      ensures db.Valid()
      ensures Upserted(old(db.magazines.rows), old(db.magazines.last), old(id), MagazineColumns(name, category),
                       db.magazines.rows, db.magazines.last, id, s)
    {
      s, id := db.magazines.Upsert(id, MagazineColumns(name, category));
    }
  }

  /** `articles()`: the articles whose magazine_id is the magazine's id. */
  function Articles(arts: ArticleTable, key: Option<int>): (r: ArticleTable)
    ensures forall x :: x in r <==> x in arts && key == Some(x.data.magazineId)
    ensures key.None? ==> r == []
    ensures UniqueIds(arts) ==> UniqueIds(r)
  {
    var r := Filter(arts, (x: Row<ArticleFields>) => key == Some(x.data.magazineId));
    assert r != [] ==> r[0] in r;
    r
  }

  /** `contributors()`: SELECT DISTINCT a.* over the inner join of authors with the magazine's articles. */
  function Contributors(auths: AuthorTable, arts: ArticleTable, key: Option<int>): (r: AuthorTable)
    ensures forall a :: a in r <==>
              a in auths && exists x :: x in arts && x.data.authorId == a.id && key == Some(x.data.magazineId)
    ensures UniqueIds(auths) ==> UniqueIds(r)
  {
    var ours := Articles(arts, key);
    Filter(auths, (a: Row<AuthorFields>) => exists x :: x in ours && x.data.authorId == a.id)
  }

  /** `article_titles()`: one title per article of the magazine, duplicates kept; None when there is none. */
  function ArticleTitles(arts: ArticleTable, key: Option<int>): (r: Option<seq<string>>)
    ensures r.None? <==> forall x :: x in arts ==> key != Some(x.data.magazineId)
    ensures r.Some? ==> |r.value| == |Articles(arts, key)|
    ensures r.Some? ==> forall t :: t in r.value <==>
              exists x :: x in arts && key == Some(x.data.magazineId) && x.data.title == t
    ensures r.Some? ==> forall t :: multiset(r.value)[t] == TitleCount(Articles(arts, key), t)
  {
    var ours := Articles(arts, key);
    var titles := Titles(ours);
    forall t ensures multiset(titles)[t] == TitleCount(ours, t) {
      TitlesCounted(ours, t);
    }
    assert forall t :: t in titles <==> exists x :: x in ours && x.data.title == t by {
      forall t | t in titles ensures exists x :: x in ours && x.data.title == t {
        var i :| 0 <= i < |titles| && titles[i] == t;
        assert ours[i] in ours;
      }
      forall x | x in ours ensures x.data.title in titles {
        var i :| 0 <= i < |ours| && ours[i] == x;
        assert titles[i] == x.data.title;
      }
    }
    assert ours != [] ==> ours[0] in ours;
    if titles == [] then None else Some(titles)
  }

  /** The title column of `arts`, one entry per row. */
  function Titles(arts: ArticleTable): (r: seq<string>)
    ensures |r| == |arts|
    ensures forall i :: 0 <= i < |arts| ==> r[i] == arts[i].data.title
  {
    if arts == [] then [] else [arts[0].data.title] + Titles(arts[1..])
  }

  /** How many rows of `arts` carry title `t`. */
  function TitleCount(arts: ArticleTable, t: string): nat
  {
    |Filter(arts, (x: Row<ArticleFields>) => x.data.title == t)|
  }

  /** The title column holds each title exactly as many times as there are rows with that title. */
  lemma {:induction false} TitlesCounted(arts: ArticleTable, t: string)
    ensures multiset(Titles(arts))[t] == TitleCount(arts, t)
  {
    if arts != [] {
      TitlesCounted(arts[1..], t);
      assert Titles(arts) == [arts[0].data.title] + Titles(arts[1..]);
    }
  }

  /** COUNT(ar.id) of the group of `author` in the join behind contributing_authors(). */
  function Written(arts: ArticleTable, author: int, key: Option<int>): (r: nat)
    ensures r <= |arts|
    ensures r == 0 <==> forall i :: 0 <= i < |arts| ==> arts[i].data.authorId != author || key != Some(arts[i].data.magazineId)
  {
    var group := Filter(arts, (x: Row<ArticleFields>) => x.data.authorId == author && key == Some(x.data.magazineId));
    assert group != [] <==> exists i :: 0 <= i < |arts| && arts[i].data.authorId == author && key == Some(arts[i].data.magazineId) by {
      if group != [] {
        assert group[0] in arts;
        var i :| 0 <= i < |arts| && arts[i] == group[0];
      }
      forall i | 0 <= i < |arts| && arts[i].data.authorId == author && key == Some(arts[i].data.magazineId) ensures group != [] {
        assert arts[i] in group;
      }
    }
    |group|
  }

  /** `contributing_authors()`: the authors with more than two articles in the magazine; None when no author qualifies. */
  function ContributingAuthors(auths: AuthorTable, arts: ArticleTable, key: Option<int>): (r: Option<AuthorTable>)
    ensures r.None? <==> forall a :: a in auths ==> Written(arts, a.id, key) <= 2
    ensures r.Some? ==> forall a :: a in r.value <==> a in auths && Written(arts, a.id, key) > 2
    ensures r.Some? && UniqueIds(auths) ==> UniqueIds(r.value)
  {
    var busy := Filter(auths, (a: Row<AuthorFields>) => Written(arts, a.id, key) > 2);
    assert busy != [] ==> busy[0] in busy;
    if busy == [] then None else Some(busy)
  }

  /** COUNT(a.id) of magazine `magazine` in the LEFT JOIN behind top_publisher(): 0 when it has no article. */
  function Published(arts: ArticleTable, magazine: int): (r: nat)
    ensures r <= |arts|
    ensures r > 0 <==> exists x :: x in arts && x.data.magazineId == magazine
  {
    var group := Filter(arts, (x: Row<ArticleFields>) => x.data.magazineId == magazine);
    assert group != [] ==> group[0] in group;
    |group|
  }

  /**
   * `top_publisher()`: a magazine whose article count no other magazine exceeds, None only
   * when there is no magazine.  It does not depend on the magazine it is asked on.
   */
  function TopPublisher(mags: MagazineTable, arts: ArticleTable): (r: Option<Row<MagazineFields>>)
    ensures r.None? <==> mags == []
    ensures r.Some? ==> r.value in mags
    ensures r.Some? ==> forall m :: m in mags ==> Published(arts, m.id) <= Published(arts, r.value.id)
  {
    if mags == [] then None
    else
      match TopPublisher(mags[1..], arts)
      case None => Some(mags[0])
      case Some(best) =>
        if Published(arts, best.id) > Published(arts, mags[0].id) then Some(best) else Some(mags[0])
  }

  /** Every author returned by contributing_authors() is also among contributors(). */
  lemma {:induction false} ContributingAuthorsContribute(auths: AuthorTable, arts: ArticleTable, key: Option<int>)
    requires ContributingAuthors(auths, arts, key).Some?
    ensures forall a :: a in ContributingAuthors(auths, arts, key).value ==> a in Contributors(auths, arts, key)
  {
    forall a | a in ContributingAuthors(auths, arts, key).value
      ensures a in Contributors(auths, arts, key)
    {
      var mine := Filter(arts, (x: Row<ArticleFields>) => x.data.authorId == a.id && key == Some(x.data.magazineId));
      assert mine[0] in mine;
    }
  }

  /** An article appended to the articles table raises its author's count in its magazine, and that magazine's count, by one. */
  lemma {:induction false} AppendedArticleCounts(arts: ArticleTable, row: Row<ArticleFields>)
    ensures Written(arts + [row], row.data.authorId, Some(row.data.magazineId)) ==
            Written(arts, row.data.authorId, Some(row.data.magazineId)) + 1
    ensures Published(arts + [row], row.data.magazineId) == Published(arts, row.data.magazineId) + 1
  {
    var key := Some(row.data.magazineId);
    FilterAppend(arts, row, (x: Row<ArticleFields>) => x.data.authorId == row.data.authorId && key == Some(x.data.magazineId));
    FilterAppend(arts, row, (x: Row<ArticleFields>) => x.data.magazineId == row.data.magazineId);
  }

  /** In a table where one author wrote three articles for magazine 1, that author contributes to it; with only the first two, nobody does. */
  lemma {:induction false} ThreeArticlesNeeded()
    ensures var jane := Row(1, AuthorFields("Jane Doe"));
            var arts := [Row(1, ArticleFields("Intro to Systems", 1, 1)), Row(2, ArticleFields("Deep Dive APIs", 1, 1)),
                         Row(3, ArticleFields("Closing Notes", 1, 1))];
            ContributingAuthors([jane], arts, Some(1)) == Some([jane]) &&
            ContributingAuthors([jane], arts[..2], Some(1)) == None
  {
    var jane := Row(1, AuthorFields("Jane Doe"));
    var a1, a2, a3 := Row(1, ArticleFields("Intro to Systems", 1, 1)), Row(2, ArticleFields("Deep Dive APIs", 1, 1)),
                      Row(3, ArticleFields("Closing Notes", 1, 1));
    assert Written([], 1, Some(1)) == 0;
    AppendedArticleCounts([], a1);
    assert [] + [a1] == [a1];
    AppendedArticleCounts([a1], a2);
    assert [a1] + [a2] == [a1, a2];
    AppendedArticleCounts([a1, a2], a3);
    assert [a1, a2] + [a3] == [a1, a2, a3];
    assert [a1, a2, a3][..2] == [a1, a2];
    assert Written([a1, a2], 1, Some(1)) == 2 && Written([a1, a2, a3], 1, Some(1)) == 3;
    var r := ContributingAuthors([jane], [a1, a2, a3], Some(1));
    assert r.Some? && jane in r.value;
    assert r.value == [jane] by {
      assert forall a :: a in r.value ==> a == jane;
      assert |r.value| <= 1;
    }
  }
}

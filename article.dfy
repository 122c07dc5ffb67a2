/**
 * The Article record (one row of `articles`): a write-once title, and foreign keys
 * that are read and set through Author and Magazine records.  Author.add_article
 * lives here as AddArticle, since it builds an Article and this module already
 * depends on the other two.
 */
module Articles {
  import opened Wrappers
  import opened Store
  import Authors
  import Magazines

  /** What the `author` setter is handed: an Author record, or any other Python value. */
  datatype AuthorArg = AuthorRef(author: Authors.Author) | NotAuthor

  /** What the `magazine` setter is handed: a Magazine record, or any other Python value. */
  datatype MagazineArg = MagazineRef(magazine: Magazines.Magazine) | NotMagazine

  /**
   * The `title` setter applied to an article whose title is `current`: how it ends and the
   * title afterwards.  The length check comes first, the write-once check second.
   */
  function AssignTitle(current: Option<string>, v: PyValue): (r: (Status, Option<string>))
    ensures r.0 == ValueError <==> !(v.Str? && 5 <= |v.s| <= 50)
    ensures r.0 == AttributeError <==> v.Str? && 5 <= |v.s| <= 50 && current.Some?
    ensures r.0 == Ok <==> v.Str? && 5 <= |v.s| <= 50 && current.None?
    ensures r.0 == Ok ==> r.1 == Some(v.s)
    ensures r.0 != Ok ==> r.1 == current
  {
    if !v.Str? || !(5 <= |v.s| <= 50) then (ValueError, current)
    else if current.Some? then (AttributeError, current)
    else (Ok, Some(v.s))
  }

  /** Once a title has been set, no later assignment succeeds or changes it. */
  lemma TitleIsWriteOnce(current: Option<string>, v: PyValue, w: PyValue)
    requires AssignTitle(current, v).0 == Ok
    ensures AssignTitle(AssignTitle(current, v).1, w).0 != Ok
    ensures AssignTitle(AssignTitle(current, v).1, w).1 == AssignTitle(current, v).1
  {
  }

  class Article {
    var id: Option<int>
    var title: Option<string>
    var authorId: Option<int>
    var magazineId: Option<int>

    /** Stores the values as given: the constructor does not go through the title setter. */
    constructor (id: Option<int>, title: Option<string>, authorId: Option<int>, magazineId: Option<int>)
      ensures this.id == id && this.title == title
      ensures this.authorId == authorId && this.magazineId == magazineId
    {
      this.id := id;
      this.title := title;
      this.authorId := authorId;
      this.magazineId := magazineId;
    }

    /** The `title` setter. */
    method SetTitle(v: PyValue) returns (s: Status)
      modifies this`title
      ensures (s, title) == AssignTitle(old(title), v)
    {
      if !v.Str? || !(5 <= |v.s| <= 50) {
        return ValueError;
      }
      if title.Some? {
        return AttributeError;
      }
      title := Some(v.s);
      s := Ok;
    }

    /** Materialises a stored row, without validation. */
    static method NewFromDb(row: Row<ArticleFields>) returns (a: Article)
      ensures fresh(a) && a.id == Some(row.id) && a.title == Some(row.data.title)
      ensures a.authorId == Some(row.data.authorId) && a.magazineId == Some(row.data.magazineId)
    {
      a := new Article(Some(row.id), Some(row.data.title), Some(row.data.authorId), Some(row.data.magazineId));
    }

    /** The article stored under `key`, or null (Python's None) when there is none. */
    static method FindById(db: Database, key: Option<int>) returns (a: Article?)
      ensures a == null <==> key.None? || Find(db.articles.rows, key.value).None?
      ensures a != null ==> fresh(a) && a.id == key && a.title.Some? && a.authorId.Some? && a.magazineId.Some? &&
                            Find(db.articles.rows, key.value) ==
                            Some(Row(key.value, ArticleFields(a.title.value, a.authorId.value, a.magazineId.value)))
    {
      if key.None? {
        return null;
      }
      var row := Find(db.articles.rows, key.value);
      if row.None? {
        return null;
      }
      a := NewFromDb(row.value);
    }

    /** INSERT (capturing the new id) when the article has no id, otherwise UPDATE of its row. */
    method Save(db: Database) returns (s: Status)
      requires db.Valid()
      modifies this`id, db.articles
      ensures db.Valid()
      ensures Upserted(old(db.articles.rows), old(db.articles.last), old(id),
                       ArticleColumns(title, authorId, magazineId),
                       db.articles.rows, db.articles.last, id, s)
    {
      s, id := db.articles.Upsert(id, ArticleColumns(title, authorId, magazineId));
    }

    /** The `author` getter: the author stored under author_id, re-read on every call. */
    method GetAuthor(db: Database) returns (a: Authors.Author?)
      ensures a == null <==> authorId.None? || Find(db.authors.rows, authorId.value).None?
      ensures a != null ==> fresh(a) && a.id == authorId && a.name.Some? &&
                            Find(db.authors.rows, authorId.value) ==
                            Some(Row(authorId.value, AuthorFields(a.name.value)))
    {
      a := Authors.Author.FindById(db, authorId);
    }

    /** The `author` setter: takes the author's id (None for an unsaved author) and writes nothing to the store. */
    method SetAuthor(arg: AuthorArg) returns (s: Status)
      modifies this`authorId
      ensures arg.NotAuthor? ==> s == ValueError && authorId == old(authorId)
      ensures arg.AuthorRef? ==> s == Ok && authorId == arg.author.id
    {
      match arg {
        case NotAuthor =>
          s := ValueError;
        case AuthorRef(author) =>
          authorId := author.id;
          s := Ok;
      }
    }

    /** The `magazine` getter: the magazine stored under magazine_id, re-read on every call. */
    method GetMagazine(db: Database) returns (m: Magazines.Magazine?)
      ensures m == null <==> magazineId.None? || Find(db.magazines.rows, magazineId.value).None?
      ensures m != null ==> fresh(m) && m.id == magazineId && m.name.Some? && m.category.Some? &&
                            Find(db.magazines.rows, magazineId.value) ==
                            Some(Row(magazineId.value, MagazineFields(m.name.value, m.category.value)))
    {
      m := Magazines.Magazine.FindById(db, magazineId);
    }

    /** The `magazine` setter: takes the magazine's id (None for an unsaved magazine) and writes nothing to the store. */
    method SetMagazine(arg: MagazineArg) returns (s: Status)
      modifies this`magazineId
      ensures arg.NotMagazine? ==> s == ValueError && magazineId == old(magazineId)
      ensures arg.MagazineRef? ==> s == Ok && magazineId == arg.magazine.id
    {
      match arg {
        case NotMagazine =>
          s := ValueError;
        case MagazineRef(magazine) =>
          magazineId := magazine.id;
          s := Ok;
      }
    }
  }

  /**
   * Author.add_article: builds an unsaved Article for `author` and `magazine` with `title`,
   * unchecked, and saves it.  A saved article is then one of the author's articles and of
   * the magazine's, and counts once more towards contributing_authors() and top_publisher().
   */
  method AddArticle(author: Authors.Author, magazine: Magazines.Magazine, title: Option<string>, db: Database)
    returns (article: Article, s: Status)
    requires db.Valid()
    modifies db.articles
    ensures db.Valid() && fresh(article)
    ensures article.title == title && article.authorId == author.id && article.magazineId == magazine.id
    ensures Upserted(old(db.articles.rows), old(db.articles.last), None,
                     ArticleColumns(title, author.id, magazine.id),
                     db.articles.rows, db.articles.last, article.id, s)
    ensures s == Ok <==> title.Some? && author.id.Some? && magazine.id.Some?
    ensures s == Ok ==>
              var row := Row(article.id.value, ArticleFields(title.value, author.id.value, magazine.id.value));
              && row in Authors.Articles(db.articles.rows, author.id)
              && row in Magazines.Articles(db.articles.rows, magazine.id)
              && Magazines.Written(db.articles.rows, author.id.value, magazine.id) ==
                 Magazines.Written(old(db.articles.rows), author.id.value, magazine.id) + 1
              && Magazines.Published(db.articles.rows, magazine.id.value) ==
                 Magazines.Published(old(db.articles.rows), magazine.id.value) + 1
  {
    article := new Article(None, title, author.id, magazine.id);
    s := article.Save(db);
    if s == Ok {
      var row := Row(article.id.value, ArticleFields(title.value, author.id.value, magazine.id.value));
      assert db.articles.rows == old(db.articles.rows) + [row];
      Magazines.AppendedArticleCounts(old(db.articles.rows), row);
    }
  }
}

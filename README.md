# Magazine records over SQLite, modelled in Dafny

The system is a small object-relational layer over one SQLite file with three
tables, `authors`, `magazines` and `articles`. Each table has a record class:
`Author`, `Magazine` and `Article`. A record keeps its primary key (`None` until
its first save) and its columns. It validates assignments made through its
property setters. `save()` inserts the record, or updates its row when it
already has an id. `find_by_id` loads a row back. The records also answer
relationship and aggregate queries: an author's articles, magazines and topic
areas; a magazine's articles, contributors, article titles and contributing
authors; and the magazine with the most articles.

The model replaces the database file with an in-memory store that is passed to
every operation:

- `wrappers.dfy` (module `Wrappers`): `Option`; `PyValue`, the value handed to a
  setter (a `str` or anything else); and `Status`, how a call ends (normally, or
  with `ValueError`, `AttributeError` or `IntegrityError`).
- `store.dfy` (module `Store`): rows and their columns. It also holds the NOT
  NULL schema (`AuthorColumns`, `MagazineColumns`, `ArticleColumns`), the scan
  functions behind the SQL (`Find`, `Replace`, `Filter`, `Dedup`), a `Table`
  class with its AUTOINCREMENT counter `last`, and a `Database` class with the
  three tables. The predicate `Upserted` relates a table before and after one
  `save()` and states once what that save does to it. The lemma
  `SaveThenFind` says what a caller can rely on afterwards.
- `author.dfy`, `magazine.dfy`, `article.dfy` (modules `Authors`, `Magazines`,
  `Articles`): the three record classes, with fields the setters and `save`
  update in place. A query depends on its record only through the record's id.
  So each query is a function of that id (`key`, `None` for an unsaved record)
  and of the tables it reads. It returns the rows the source turns into
  objects.

How the code behaves:

- Constructors and `new_from_db` assign fields directly and skip the setters.
  `add_article` does not check the title either. So an empty author name, a
  one-letter magazine name or a two-letter title can be constructed and saved.
  The demo in debug.py:107-126 expects `Author(None, "")`,
  `Magazine(None, "A", ...)` and `Article(None, "Hi", ...)` to raise
  `ValueError`; with the constructors as written they are saved instead. The
  model follows the constructors.
- `PRAGMA foreign_keys = ON` runs only on the connection that creates the
  tables. Every save opens a new connection, so foreign keys are never enforced.
  The model does not check them. Inner joins simply drop articles whose author
  or magazine row is missing.
- Every column is NOT NULL. A save that would write `None` into one fails with
  `IntegrityError` and changes nothing. This includes an article whose author
  was never saved. An UPDATE matches no row when the id is missing, so it then
  succeeds and changes nothing, even with a `None` column.
- AUTOINCREMENT hands out `last + 1`, where `last` is the largest id the table
  has ever issued. Ids are never reused.
- `WHERE col = ?` with `None` matches nothing. An unsaved author therefore has
  no articles, and `find_by_id(None)` returns `None`.
- Only `top_publisher` has an ORDER BY, and it orders by article count alone,
  so which of several magazines with the same count it returns is not fixed.
  Results are stated by membership, by counts and by absence of duplicates,
  never by order. `top_publisher` is stated
  relationally: it returns some magazine whose article count no magazine
  exceeds.
- Some queries return `None` instead of an empty list: `topic_areas`,
  `article_titles` and `contributing_authors`. The others return `[]`. Each
  query keeps its own behaviour.

## Model

| member | source | states |
|---|---|---|
| `Store.AuthorColumns` | lib/database_utils.py:18-23 | an author row can be written exactly when its name is not None, and it holds that name |
| `Store.MagazineColumns` | lib/database_utils.py:26-32 | a magazine row can be written exactly when name and category are both present, and it holds them |
| `Store.ArticleColumns` | lib/database_utils.py:35-44 | an article row can be written exactly when title, author_id and magazine_id are all present, and it holds them |
| `Store.Find` | lib/author.py:32-38 | a lookup by id returns a stored row with that id, or None exactly when no stored row has it |
| `Store.Replace` | lib/author.py:51 | an UPDATE by id rewrites exactly the rows with that id and keeps every other row and the row count |
| `Store.Filter` | lib/author.py:62-66 | a WHERE scan returns exactly the stored rows meeting the condition, never more rows than stored, without repeating an id when the table does not |
| `Store.FilterCounts` | lib/author.py:62-66 | a WHERE scan returns each row meeting the condition exactly as many times as it is stored, and no other row |
| `Store.Dedup` | lib/author.py:97 | SELECT DISTINCT keeps every value that occurs and no value twice |
| `Store.FindInReplace` | lib/author.py:49-51 | after an UPDATE of id k, looking up k yields the new columns if k was stored, and every other lookup is unchanged |
| `Store.FindInAppend` | lib/author.py:45-48 | after inserting a row under an unused id, that id reads back as the new row and every other lookup is unchanged |
| `Store.FilterAppend` | lib/magazine.py:120-126 | appending a row to a table adds it to a WHERE result exactly when it meets the condition |
| `Store.Upserted` | lib/author.py:45-51 | INSERT when the record has no id: NULL in a NOT NULL column fails with IntegrityError and changes nothing, otherwise the row is appended under the next AUTOINCREMENT id, which becomes the record's id; UPDATE when it has one: the id and counter stay, a missing row leaves the table as it was, NULL fails with IntegrityError, otherwise that row's columns are rewritten; so an existing id is kept, and a failure is always IntegrityError from a NULL column and writes nothing |
| `Store.SaveThenFind` | lib/author.py:40-55 | after save the table stays well formed; an existing id is never reassigned; an insert or an update of a stored row reads back with exactly the saved columns; other ids read back as before; a failed save leaves table and id untouched; it fails only when a NOT NULL column is None and a row would be written |
| `Store.Table.constructor` | lib/database_utils.py:18-23 | a newly created table is empty and has issued no id |
| `Store.Table.Upsert` | lib/article.py:45-66 | INSERT with a fresh id (largest issued + 1) when the key is None, else UPDATE of the row with that key, as `Upserted` states; the table stays well formed |
| `Store.Database.constructor` | lib/database_utils.py:9-47 | creating the schema in a new database file gives three empty, well-formed tables that have issued no id, so the first save into each gets id 1 (on an existing file `CREATE TABLE IF NOT EXISTS` keeps its rows, which is not modelled) |
| `Authors.Author.constructor` | lib/author.py:4-6 | construction stores id and name exactly as given, unvalidated |
| `Authors.Author.SetName` | lib/author.py:16-20 | succeeds exactly for a non-empty string and then stores it; otherwise ValueError with the name unchanged |
| `Authors.Author.NewFromDb` | lib/author.py:22-25 | a new author whose id and name are the row's |
| `Authors.Author.FindById` | lib/author.py:27-38 | None exactly when the key is None or no author row has it; otherwise a new author equal to that row |
| `Authors.Author.Save` | lib/author.py:40-55 | one INSERT-or-UPDATE of the authors table with the current name (`Upserted`); the id is set only by an insert; other tables are untouched |
| `Authors.Articles` | lib/author.py:57-69 | exactly the articles whose author_id is the author's id; `[]` for an unsaved author; no row twice |
| `Authors.Magazines` | lib/author.py:71-84 | exactly the stored magazines that some article of the author points to, each once |
| `Authors.TopicAreas` | lib/author.py:92-104 | None exactly when no article of the author joins a stored magazine; otherwise each category of a joined magazine, once |
| `Authors.TopicsFollowMagazines` | lib/author.py:71-104 | topic_areas() is None exactly when magazines() is empty, and otherwise contains the category of every magazine it returns |
| `Magazines.Magazine.constructor` | lib/magazine.py:4-7 | construction stores id, name and category exactly as given, unvalidated |
| `Magazines.Magazine.SetName` | lib/magazine.py:17-21 | succeeds exactly for a string of 2 to 16 characters and then stores it; otherwise ValueError with the name unchanged |
| `Magazines.Magazine.SetCategory` | lib/magazine.py:27-31 | succeeds exactly for a non-empty string and then stores it; otherwise ValueError with the category unchanged |
| `Magazines.Magazine.NewFromDb` | lib/magazine.py:33-36 | a new magazine whose id, name and category are the row's |
| `Magazines.Magazine.FindById` | lib/magazine.py:38-49 | None exactly when the key is None or no magazine row has it; otherwise a new magazine equal to that row |
| `Magazines.Magazine.Save` | lib/magazine.py:51-72 | one INSERT-or-UPDATE of the magazines table with the current name and category (`Upserted`); other tables are untouched |
| `Magazines.Articles` | lib/magazine.py:74-86 | exactly the articles whose magazine_id is the magazine's id; `[]` for an unsaved magazine; no row twice |
| `Magazines.Contributors` | lib/magazine.py:88-101 | exactly the stored authors with at least one article in the magazine, each once; `[]` when none |
| `Magazines.ArticleTitles` | lib/magazine.py:103-113 | None exactly when the magazine has no article; otherwise one title per article of the magazine, each title occurring exactly as many times as the magazine has articles with that title |
| `Magazines.Titles` | lib/magazine.py:108-113 | the title column has one entry per row, the i-th row's title at position i |
| `Magazines.TitlesCounted` | lib/magazine.py:108-113 | the title column holds each title exactly as many times as there are rows carrying it |
| `Magazines.Written` | lib/magazine.py:120-126 | the count of an author's articles in a magazine is at most the number of articles, and zero exactly when the author has no article in it |
| `Magazines.ContributingAuthors` | lib/magazine.py:115-130 | exactly the stored authors with strictly more than two articles in the magazine, each once; None exactly when no author has more than two |
| `Magazines.Published` | lib/magazine.py:137-140 | the count of a magazine's articles, zero in the LEFT JOIN when it has none, is at most the number of articles and positive exactly when some article is in it |
| `Magazines.TopPublisher` | lib/magazine.py:132-149 | None exactly when there is no magazine; otherwise a stored magazine whose article count, zero for one without articles, is at least every magazine's |
| `Magazines.ContributingAuthorsContribute` | lib/magazine.py:88-130 | every author returned by contributing_authors() is among contributors() |
| `Magazines.AppendedArticleCounts` | lib/magazine.py:120-126 | a newly stored article raises its author's count in its magazine by one, and its magazine's count by one |
| `Magazines.ThreeArticlesNeeded` | lib/magazine.py:115-130 | for one table with a single author who wrote three articles for magazine 1, contributing_authors() of that magazine returns that author; with only the first two of those articles it returns None |
| `Articles.AssignTitle` | lib/article.py:18-25 | ValueError exactly for a non-string or a length outside 5..50; otherwise AttributeError exactly when a title is already set; otherwise the title becomes the value; a failure keeps the title |
| `Articles.TitleIsWriteOnce` | lib/article.py:22-25 | after one successful assignment, every later assignment fails and keeps the title |
| `Articles.Article.constructor` | lib/article.py:4-8 | construction stores id, title, author_id and magazine_id exactly as given, unvalidated |
| `Articles.Article.SetTitle` | lib/article.py:18-25 | the outcome and new title are those of `AssignTitle` on the old title |
| `Articles.Article.NewFromDb` | lib/article.py:27-30 | a new article whose fields are the row's |
| `Articles.Article.FindById` | lib/article.py:32-43 | None exactly when the key is None or no article row has it; otherwise a new article equal to that row |
| `Articles.Article.Save` | lib/article.py:45-66 | one INSERT-or-UPDATE of the articles table with the current title, author_id and magazine_id (`Upserted`); foreign keys are not checked |
| `Articles.Article.GetAuthor` | lib/article.py:68-72 | the author stored under author_id, or None when author_id is None or has no row |
| `Articles.Article.SetAuthor` | lib/article.py:74-80 | ValueError with author_id unchanged for a non-Author; otherwise author_id becomes that author's id, possibly None, and nothing else changes or is written |
| `Articles.Article.GetMagazine` | lib/article.py:82-86 | the magazine stored under magazine_id, or None when magazine_id is None or has no row |
| `Articles.Article.SetMagazine` | lib/article.py:88-94 | ValueError with magazine_id unchanged for a non-Magazine; otherwise magazine_id becomes that magazine's id, possibly None, and nothing else changes or is written |
| `Articles.AddArticle` | lib/author.py:86-90 | builds an unsaved article with the title unchecked and saves it; it succeeds exactly when title, author id and magazine id are present; the stored row is then among the author's and the magazine's articles, and both counts rise by one |

## Left out

- Connections, cursors, commit, close and `lastrowid` are not modelled. The store is passed to each
  operation explicitly, and a new id is the table's largest issued id plus one.
- The connection left open when a save raises `IntegrityError` is not modelled; the model only says
  that nothing was written.
- Python values other than `str` and `None` in a text or id field are left out (an integer name,
  which SQLite would store with TEXT affinity, for example). A setter argument is only "a string" or
  "not a string", and a relationship setter argument is only "an Author/Magazine" or "something
  else".
- Query results are the rows the source turns into objects with `new_from_db`. Building the list of
  objects is not modelled; `NewFromDb` models building one.
- The order of query results is left unspecified, as SQLite leaves it without ORDER BY. The
  tie-break of `top_publisher` is left unspecified too: its ORDER BY article_count DESC does not
  decide between equal counts. `Magazines.TopPublisher` computes one magazine of maximal count.
- Opening an existing database file is not modelled: `Database` starts from a new file, where
  `CREATE TABLE IF NOT EXISTS` creates three empty tables.
- AUTOINCREMENT running out of ids (SQLite's largest rowid) is not modelled; ids are unbounded.
- `len` counts code points in Python; strings here are sequences of `char`.
- `Author.add_article` is modelled as `Articles.AddArticle`, outside the `Author` class, because the
  Article module needs the Author class for its `isinstance` checks.
- debug.py, the demo script, is not part of this model.

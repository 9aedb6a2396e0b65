/** The persisted catalog: three lists of plain records, as stored in the
    catalog file, and the operations the program performs on them. */
module Catalog {
  import opened Wrappers
  import opened Entities

  datatype AuthorRecord = AuthorRecord(name: string, email: string)

  datatype CategoryRecord = CategoryRecord(name: string)

  /** `author` holds the author's email and `category` the category name. */
  datatype ArticleRecord = ArticleRecord(
    title: string,
    content: string,
    author: string,
    category: string,
    publishedAt: Timestamp)

  /** The whole catalog as one file holds it: three lists of records. */
  datatype Snapshot = Snapshot(
    authors: seq<AuthorRecord>,
    categories: seq<CategoryRecord>,
    articles: seq<ArticleRecord>)

  const Empty := Snapshot([], [], [])

  /** `load_from_json`, with the parsing left out: `stored` is the parsed
      file, or `None` when the file does not exist. */
  function Load(stored: Option<Snapshot>): (r: Snapshot)
    ensures stored.None? ==> r.authors == [] && r.categories == [] && r.articles == []
    ensures stored.Some? ==> r == stored.value
  {
    match stored
    case None => Empty
    case Some(c) => c
  }

  /** Some author record carries `email`. */
  predicate HasEmail(authors: seq<AuthorRecord>, email: string) {
    exists i :: 0 <= i < |authors| && authors[i].email == email
  }

  /** Some category record carries `name`. */
  predicate HasCategory(categories: seq<CategoryRecord>, name: string) {
    exists i :: 0 <= i < |categories| && categories[i].name == name
  }

  ghost predicate UniqueEmails(authors: seq<AuthorRecord>) {
    forall i, j :: 0 <= i < j < |authors| ==> authors[i].email != authors[j].email
  }

  ghost predicate UniqueCategoryNames(categories: seq<CategoryRecord>) {
    forall i, j :: 0 <= i < j < |categories| ==> categories[i].name != categories[j].name
  }

  /** The add-article update of the catalog: an author record only for an
      unseen email, a category record only for an unseen name, and always
      exactly one article record referring to both by key. */
  function AppendArticle(c: Snapshot, authorName: string, email: string, categoryName: string,
                         title: string, content: string, publishedAt: Timestamp): (r: Snapshot)
    ensures |r.authors| == |c.authors| + (if HasEmail(c.authors, email) then 0 else 1)
    ensures r.authors[..|c.authors|] == c.authors
    ensures !HasEmail(c.authors, email) ==> r.authors[|c.authors|] == AuthorRecord(authorName, email)
    ensures HasEmail(r.authors, email)
    ensures |r.categories| == |c.categories| + (if HasCategory(c.categories, categoryName) then 0 else 1)
    ensures r.categories[..|c.categories|] == c.categories
    ensures !HasCategory(c.categories, categoryName) ==> r.categories[|c.categories|] == CategoryRecord(categoryName)
    ensures HasCategory(r.categories, categoryName)
    ensures |r.articles| == |c.articles| + 1 && r.articles[..|c.articles|] == c.articles
    ensures r.articles[|c.articles|] == ArticleRecord(title, content, email, categoryName, publishedAt)
  {
    var authors :=
      if HasEmail(c.authors, email) then c.authors
      else c.authors + [AuthorRecord(authorName, email)];
    var categories :=
      if HasCategory(c.categories, categoryName) then c.categories
      else c.categories + [CategoryRecord(categoryName)];
    assert HasEmail(authors, email) by {
      if !HasEmail(c.authors, email) {
        assert authors[|c.authors|].email == email;
      }
    }
    assert HasCategory(categories, categoryName) by {
      if !HasCategory(c.categories, categoryName) {
        assert categories[|c.categories|].name == categoryName;
      }
    }
    Snapshot(authors, categories,
            c.articles + [ArticleRecord(title, content, email, categoryName, publishedAt)])
  }

  /** Appending an article keeps author emails and category names unique;
      the set of emails and the set of names each gain exactly the new key. */
  lemma {:induction false} AppendKeepsUnique(c: Snapshot, authorName: string, email: string, categoryName: string,
                                             title: string, content: string, publishedAt: Timestamp)
    ensures var r := AppendArticle(c, authorName, email, categoryName, title, content, publishedAt);
      && (UniqueEmails(c.authors) ==> UniqueEmails(r.authors))
      && (UniqueCategoryNames(c.categories) ==> UniqueCategoryNames(r.categories))
      && (forall e :: HasEmail(r.authors, e) <==> HasEmail(c.authors, e) || e == email)
      && (forall n :: HasCategory(r.categories, n) <==> HasCategory(c.categories, n) || n == categoryName)
  {
    var r := AppendArticle(c, authorName, email, categoryName, title, content, publishedAt);
    if !HasEmail(c.authors, email) {
      assert r.authors == c.authors + [AuthorRecord(authorName, email)];
    } else {
      assert r.authors == c.authors;
    }
    if !HasCategory(c.categories, categoryName) {
      assert r.categories == c.categories + [CategoryRecord(categoryName)];
    } else {
      assert r.categories == c.categories;
    }
  }

  /** Appending twice with one new email but different author names records
      the author once, under the first name, and both article records. */
  lemma AppendTwiceKeepsFirstName(c: Snapshot, name1: string, name2: string, email: string, categoryName: string,
                                  title: string, content: string, now1: Timestamp, now2: Timestamp)
    requires !HasEmail(c.authors, email)
    ensures var r1 := AppendArticle(c, name1, email, categoryName, title, content, now1);
      var r2 := AppendArticle(r1, name2, email, categoryName, title, content, now2);
      && r2.authors == c.authors + [AuthorRecord(name1, email)]
      && r2.articles == c.articles + [ArticleRecord(title, content, email, categoryName, now1),
                                      ArticleRecord(title, content, email, categoryName, now2)]
  {
    var r1 := AppendArticle(c, name1, email, categoryName, title, content, now1);
    var r2 := AppendArticle(r1, name2, email, categoryName, title, content, now2);
    assert r1.authors == c.authors + [AuthorRecord(name1, email)] by {
      assert r1.authors[..|c.authors|] == c.authors;
    }
    assert r2.authors == r1.authors by {
      assert r2.authors[..|r1.authors|] == r1.authors;
    }
    assert r1.articles == c.articles + [ArticleRecord(title, content, email, categoryName, now1)] by {
      assert r1.articles[..|c.articles|] == c.articles;
    }
    assert r2.articles == r1.articles + [ArticleRecord(title, content, email, categoryName, now2)] by {
      assert r2.articles[..|r1.articles|] == r1.articles;
    }
  }

  /** The author records contain no later record with the same email as record `i`. */
  ghost predicate LastWithEmail(authors: seq<AuthorRecord>, i: int)
    requires 0 <= i < |authors|
  {
    forall j :: i < j < |authors| ==> authors[j].email != authors[i].email
  }

  lemma HasEmailSnoc(init: seq<AuthorRecord>, last: AuthorRecord)
    ensures forall e :: HasEmail(init + [last], e) <==> HasEmail(init, e) || e == last.email
  {
    var authors := init + [last];
    forall e | HasEmail(authors, e) ensures HasEmail(init, e) || e == last.email {
      var i :| 0 <= i < |authors| && authors[i].email == e;
      if i < |init| { assert init[i] == authors[i]; }
    }
    forall e | HasEmail(init, e) ensures HasEmail(authors, e) {
      var i :| 0 <= i < |init| && init[i].email == e;
      assert authors[i] == init[i];
    }
    assert authors[|init|] == last;
  }

  lemma HasCategorySnoc(init: seq<CategoryRecord>, last: CategoryRecord)
    ensures forall n :: HasCategory(init + [last], n) <==> HasCategory(init, n) || n == last.name
  {
    var categories := init + [last];
    forall n | HasCategory(categories, n) ensures HasCategory(init, n) || n == last.name {
      var i :| 0 <= i < |categories| && categories[i].name == n;
      if i < |init| { assert init[i] == categories[i]; }
    }
    forall n | HasCategory(init, n) ensures HasCategory(categories, n) {
      var i :| 0 <= i < |init| && init[i].name == n;
      assert categories[i] == init[i];
    }
    assert categories[|init|] == last;
  }

  /** A record that is the last with its email in a longer list is the last
      with it in the shorter one, and differs from the record appended. */
  lemma LastWithEmailSnoc(init: seq<AuthorRecord>, last: AuthorRecord, i: int)
    requires 0 <= i < |init| && LastWithEmail(init + [last], i)
    ensures LastWithEmail(init, i) && init[i].email != last.email
  {
    var authors := init + [last];
    forall j | i < j < |init| ensures init[j].email != init[i].email {
      assert authors[j] == init[j] && authors[i] == init[i];
    }
    assert authors[|init|] == last && authors[i] == init[i];
  }

  /** The author registry rebuilt from the records at the start of each menu
      round: one fresh author (with no articles) per email, where a later
      record with the same email replaces an earlier one. */
  function AuthorsFromRecords(authors: seq<AuthorRecord>): (r: map<string, Author>)
    ensures forall e :: e in r <==> HasEmail(authors, e)
    ensures AuthorsKeyed(r)
    ensures forall e :: e in r ==> r[e].articles == []
    ensures forall i :: 0 <= i < |authors| ==> authors[i].email in r
    ensures forall i :: 0 <= i < |authors| && LastWithEmail(authors, i) ==> r[authors[i].email].name == authors[i].name
  {
    if |authors| == 0 then map[]
    else
      var init := authors[..|authors| - 1];
      var last := authors[|authors| - 1];
      assert authors == init + [last];
      HasEmailSnoc(init, last);
      var r := AuthorsFromRecords(init)[last.email := Author(last.name, last.email, [])];
      assert forall i :: 0 <= i < |authors| ==> authors[i].email in r by {
        forall i | 0 <= i < |authors| ensures authors[i].email in r {
          assert HasEmail(authors, authors[i].email);
        }
      }
      assert forall i :: 0 <= i < |authors| && LastWithEmail(authors, i) ==> r[authors[i].email].name == authors[i].name by {
        forall i | 0 <= i < |authors| && LastWithEmail(authors, i)
          ensures r[authors[i].email].name == authors[i].name
        {
          if i < |init| {
            LastWithEmailSnoc(init, last, i);
            assert authors[i] == init[i];
          }
        }
      }
      r
  }

  /** The category registry rebuilt from the records: one fresh category per
      name, where a later record with the same name replaces an earlier one. */
  function CategoriesFromRecords(categories: seq<CategoryRecord>): (r: map<string, Category>)
    ensures forall n :: n in r <==> HasCategory(categories, n)
    ensures CategoriesKeyed(r)
    ensures forall n :: n in r ==> r[n].articles == []
  {
    if |categories| == 0 then map[]
    else
      var init := categories[..|categories| - 1];
      var last := categories[|categories| - 1];
      assert categories == init + [last];
      HasCategorySnoc(init, last);
      CategoriesFromRecords(init)[last.name := Category(last.name, [])]
  }

  /** With unique emails every record is the last with its email, so the
      registry holds exactly the recorded name for each email. */
  lemma AuthorsFromUniqueRecords(authors: seq<AuthorRecord>)
    requires UniqueEmails(authors)
    ensures forall i :: 0 <= i < |authors| ==>
      AuthorsFromRecords(authors)[authors[i].email] == Author(authors[i].name, authors[i].email, [])
  {
    var r := AuthorsFromRecords(authors);
    forall i | 0 <= i < |authors|
      ensures r[authors[i].email] == Author(authors[i].name, authors[i].email, [])
    {
      assert LastWithEmail(authors, i);
      assert HasEmail(authors, authors[i].email);
    }
  }
}

/** The in-memory entity model of the catalog manager: authors, categories and
    articles, with the bidirectional article links kept as indices into an
    arena of articles rather than as mutual object references. */
module Entities {
  import opened Wrappers

  /** A clock reading, supplied by the caller. The clock itself and its
      rendering as text are outside the model. */
  type Timestamp = string

  /** An author, identified by `email`; `articles` lists arena indices. */
  datatype Author = Author(name: string, email: string, articles: seq<nat>)

  /** A category, identified by `name`; `articles` lists arena indices. */
  datatype Category = Category(name: string, articles: seq<nat>)

  /** An article refers to its author by email and to its category by name,
      the keys under which they are registered. */
  datatype Article = Article(
    title: string,
    content: string,
    author: string,
    category: string,
    publishedAt: Option<Timestamp>)
  {
    /** A draft is an article that has never been published. */
    predicate IsDraft() {
      publishedAt.None?
    }
  }

  /** The live objects of one load cycle: the author registry keyed by email,
      the category registry keyed by name, and the arena of articles, where an
      article's identity is its position. */
  datatype Store = Store(
    authors: map<string, Author>,
    categories: map<string, Category>,
    articles: seq<Article>)

  /** Which of an article's two owners a list of indices belongs to. */
  datatype Side = ByAuthor | ByCategory

  /** The registry key an article is filed under on the given side. */
  function Key(a: Article, side: Side): string {
    match side
    case ByAuthor => a.author
    case ByCategory => a.category
  }

  /** Indices listed in creation order, each at most once. */
  ghost predicate Increasing(ids: seq<nat>) {
    forall i, j :: 0 <= i < j < |ids| ==> ids[i] < ids[j]
  }

  /** `ids` is a creation-ordered list of articles of `arena` that are all
      filed under `key` on `side`. */
  ghost predicate Owns(ids: seq<nat>, arena: seq<Article>, side: Side, key: string) {
    && Increasing(ids)
    && forall j :: 0 <= j < |ids| ==> ids[j] < |arena| && Key(arena[ids[j]], side) == key
  }

  ghost predicate AuthorsKeyed(authors: map<string, Author>) {
    forall e :: e in authors ==> authors[e].email == e
  }

  ghost predicate CategoriesKeyed(categories: map<string, Category>) {
    forall n :: n in categories ==> categories[n].name == n
  }

  /** Article `i` is listed by the author and the category it refers to. */
  ghost predicate Linked(s: Store, i: nat)
    requires i < |s.articles|
  {
    var a := s.articles[i];
    && a.author in s.authors && i in s.authors[a.author].articles
    && a.category in s.categories && i in s.categories[a.category].articles
  }

  /** The link invariant of the entity model: registries are keyed by their
      identity field, every list names only articles that refer back to its
      owner, in creation order, and every article is listed by both owners. */
  ghost predicate WellFormed(s: Store) {
    && AuthorsKeyed(s.authors)
    && CategoriesKeyed(s.categories)
    && (forall e :: e in s.authors ==> Owns(s.authors[e].articles, s.articles, ByAuthor, e))
    && (forall n :: n in s.categories ==> Owns(s.categories[n].articles, s.articles, ByCategory, n))
    && (forall i: nat :: i < |s.articles| ==> Linked(s, i))
  }

  /** `Article.edit`: replaces title and content, and nothing else. */
  function Edit(a: Article, newTitle: string, newContent: string): (r: Article)
    ensures r.title == newTitle && r.content == newContent
    ensures r.author == a.author && r.category == a.category
    ensures r.publishedAt == a.publishedAt
  {
    a.(title := newTitle, content := newContent)
  }

  /** `Article.publish`: stamps the article with the current time, overwriting
      any earlier stamp, and leaves every other field alone. */
  function Publish(a: Article, now: Timestamp): (r: Article)
    ensures !r.IsDraft() && r.publishedAt == Some(now)
    ensures r.title == a.title && r.content == a.content
    ensures r.author == a.author && r.category == a.category
  {
    a.(publishedAt := Some(now))
  }

  /** `Article.__init__`: a new draft article is placed at the end of the arena
      and its index is appended to its author's and its category's lists. */
  function Construct(s: Store, title: string, content: string, email: string, categoryName: string): (r: Store)
    requires email in s.authors && categoryName in s.categories
    ensures |r.articles| == |s.articles| + 1 && r.articles[..|s.articles|] == s.articles
    ensures var a := r.articles[|s.articles|];
      && a.title == title && a.content == content
      && a.author == email && a.category == categoryName
      && a.IsDraft()
    ensures r.authors.Keys == s.authors.Keys && r.categories.Keys == s.categories.Keys
    ensures r.authors[email].articles == s.authors[email].articles + [|s.articles|]
    ensures r.authors[email].name == s.authors[email].name
    ensures r.authors[email].email == s.authors[email].email
    ensures r.categories[categoryName].articles == s.categories[categoryName].articles + [|s.articles|]
    ensures r.categories[categoryName].name == s.categories[categoryName].name
    ensures forall e :: e in s.authors && e != email ==> r.authors[e] == s.authors[e]
    ensures forall n :: n in s.categories && n != categoryName ==> r.categories[n] == s.categories[n]
  {
    var id := |s.articles|;
    var author := s.authors[email];
    var category := s.categories[categoryName];
    Store(
      s.authors[email := author.(articles := author.articles + [id])],
      s.categories[categoryName := category.(articles := category.articles + [id])],
      s.articles + [Article(title, content, email, categoryName, None)])
  }

  /** `Article.edit` applied to the article with index `id` of the arena. */
  function EditArticle(s: Store, id: nat, newTitle: string, newContent: string): (r: Store)
    requires id < |s.articles|
    ensures r.authors == s.authors && r.categories == s.categories
    ensures |r.articles| == |s.articles|
    ensures r.articles[id].title == newTitle && r.articles[id].content == newContent
    ensures r.articles[id].author == s.articles[id].author
    ensures r.articles[id].category == s.articles[id].category
    ensures r.articles[id].publishedAt == s.articles[id].publishedAt
    ensures forall j :: 0 <= j < |s.articles| && j != id ==> r.articles[j] == s.articles[j]
  {
    s.(articles := s.articles[id := Edit(s.articles[id], newTitle, newContent)])
  }

  /** `Article.publish` applied to the article with index `id` of the arena. */
  function PublishArticle(s: Store, id: nat, now: Timestamp): (r: Store)
    requires id < |s.articles|
    ensures r.authors == s.authors && r.categories == s.categories
    ensures |r.articles| == |s.articles|
    ensures r.articles[id].publishedAt == Some(now)
    ensures r.articles[id].title == s.articles[id].title
    ensures r.articles[id].content == s.articles[id].content
    ensures r.articles[id].author == s.articles[id].author
    ensures r.articles[id].category == s.articles[id].category
    ensures forall j :: 0 <= j < |s.articles| && j != id ==> r.articles[j] == s.articles[j]
  {
    s.(articles := s.articles[id := Publish(s.articles[id], now)])
  }

  // ---------------------------------------------------------------------
  // Preservation of the link invariant

  lemma {:induction false} OwnsExtend(ids: seq<nat>, arena: seq<Article>, a: Article, side: Side, key: string)
    requires Owns(ids, arena, side, key)
    ensures Owns(ids, arena + [a], side, key)
    ensures Key(a, side) == key ==> Owns(ids + [|arena|], arena + [a], side, key)
  {
    var arena' := arena + [a];
    forall j | 0 <= j < |ids|
      ensures ids[j] < |arena'| && Key(arena'[ids[j]], side) == key
    {
      assert arena'[ids[j]] == arena[ids[j]];
    }
    if Key(a, side) == key {
      var ids' := ids + [|arena|];
      forall i, j | 0 <= i < j < |ids'|
        ensures ids'[i] < ids'[j]
      {
        if j < |ids| {
          assert ids'[i] == ids[i] && ids'[j] == ids[j];
        } else {
          assert ids'[i] == ids[i] < |arena|;
        }
      }
      forall j | 0 <= j < |ids'|
        ensures ids'[j] < |arena'| && Key(arena'[ids'[j]], side) == key
      {
        if j < |ids| {
          assert ids'[j] == ids[j];
        }
      }
    }
  }

  /** Replacing articles by ones filed under the same keys keeps every list valid. */
  lemma {:induction false} OwnsReplace(ids: seq<nat>, arena: seq<Article>, arena': seq<Article>, side: Side, key: string)
    requires Owns(ids, arena, side, key)
    requires |arena'| == |arena|
    requires forall j :: 0 <= j < |arena| ==> Key(arena'[j], side) == Key(arena[j], side)
    ensures Owns(ids, arena', side, key)
  {
    forall j | 0 <= j < |ids|
      ensures ids[j] < |arena'| && Key(arena'[ids[j]], side) == key
    {
      assert Key(arena'[ids[j]], side) == Key(arena[ids[j]], side);
    }
  }

  /** Constructing an article keeps the link invariant. */
  lemma {:induction false} ConstructKeepsWellFormed(s: Store, title: string, content: string, email: string, categoryName: string)
    requires email in s.authors && categoryName in s.categories
    requires WellFormed(s)
    ensures WellFormed(Construct(s, title, content, email, categoryName))
  {
    var r := Construct(s, title, content, email, categoryName);
    var a := Article(title, content, email, categoryName, None);
    assert r.articles == s.articles + [a];
    forall e | e in r.authors
      ensures r.authors[e].email == e
      ensures Owns(r.authors[e].articles, r.articles, ByAuthor, e)
    {
      OwnsExtend(s.authors[e].articles, s.articles, a, ByAuthor, e);
    }
    forall n | n in r.categories
      ensures r.categories[n].name == n
      ensures Owns(r.categories[n].articles, r.articles, ByCategory, n)
    {
      OwnsExtend(s.categories[n].articles, s.articles, a, ByCategory, n);
    }
    forall i: nat | i < |r.articles|
      ensures Linked(r, i)
    {
      if i < |s.articles| {
        assert r.articles[i] == s.articles[i];
        assert Linked(s, i);
      }
    }
  }

  /** Editing an article keeps the link invariant. */
  lemma {:induction false} EditKeepsWellFormed(s: Store, id: nat, newTitle: string, newContent: string)
    requires id < |s.articles|
    requires WellFormed(s)
    ensures WellFormed(EditArticle(s, id, newTitle, newContent))
  {
    var r := EditArticle(s, id, newTitle, newContent);
    forall e | e in r.authors
      ensures Owns(r.authors[e].articles, r.articles, ByAuthor, e)
    {
      OwnsReplace(s.authors[e].articles, s.articles, r.articles, ByAuthor, e);
    }
    forall n | n in r.categories
      ensures Owns(r.categories[n].articles, r.articles, ByCategory, n)
    {
      OwnsReplace(s.categories[n].articles, s.articles, r.articles, ByCategory, n);
    }
    forall i: nat | i < |r.articles|
      ensures Linked(r, i)
    {
      assert Linked(s, i);
    }
  }

  /** Publishing an article keeps the link invariant. */
  lemma {:induction false} PublishKeepsWellFormed(s: Store, id: nat, now: Timestamp)
    requires id < |s.articles|
    requires WellFormed(s)
    ensures WellFormed(PublishArticle(s, id, now))
  {
    var r := PublishArticle(s, id, now);
    forall e | e in r.authors
      ensures Owns(r.authors[e].articles, r.articles, ByAuthor, e)
    {
      OwnsReplace(s.authors[e].articles, s.articles, r.articles, ByAuthor, e);
    }
    forall n | n in r.categories
      ensures Owns(r.categories[n].articles, r.articles, ByCategory, n)
    {
      OwnsReplace(s.categories[n].articles, s.articles, r.articles, ByCategory, n);
    }
    forall i: nat | i < |r.articles|
      ensures Linked(r, i)
    {
      assert Linked(s, i);
    }
  }

  /** Publication is one-way: neither editing nor publishing any article turns
      a published article back into a draft. */
  lemma PublicationIsOneWay(s: Store, id: nat, j: nat, newTitle: string, newContent: string, now: Timestamp)
    requires id < |s.articles| && j < |s.articles|
    requires !s.articles[j].IsDraft()
    ensures !EditArticle(s, id, newTitle, newContent).articles[j].IsDraft()
    ensures !PublishArticle(s, id, now).articles[j].IsDraft()
  {
  }

  // ---------------------------------------------------------------------
  // Each article appears exactly once, and only in its owners' lists

  lemma {:induction false} IncreasingCountsOnce(ids: seq<nat>, x: nat)
    requires Increasing(ids)
    ensures multiset(ids)[x] == (if x in ids then 1 else 0)
  {
    if |ids| > 0 {
      var init := ids[..|ids| - 1];
      var last := ids[|ids| - 1];
      assert ids == init + [last];
      assert Increasing(init);
      IncreasingCountsOnce(init, x);
      if last == x {
        assert x !in init by {
          forall k | 0 <= k < |init| ensures init[k] != x {
            assert init[k] == ids[k] < ids[|ids| - 1];
          }
        }
      }
    }
  }

  /** In a well-formed store, each article is listed exactly once by its own
      author and by its own category, and by no other author or category. */
  lemma ListedExactlyOnce(s: Store, i: nat)
    requires WellFormed(s)
    requires i < |s.articles|
    ensures var a := s.articles[i];
      && a.author in s.authors && multiset(s.authors[a.author].articles)[i] == 1
      && a.category in s.categories && multiset(s.categories[a.category].articles)[i] == 1
    ensures forall e :: e in s.authors && e != s.articles[i].author ==> i !in s.authors[e].articles
    ensures forall n :: n in s.categories && n != s.articles[i].category ==> i !in s.categories[n].articles
  {
    var a := s.articles[i];
    assert Linked(s, i);
    IncreasingCountsOnce(s.authors[a.author].articles, i);
    IncreasingCountsOnce(s.categories[a.category].articles, i);
    forall e | e in s.authors && e != a.author
      ensures i !in s.authors[e].articles
    {
      assert Owns(s.authors[e].articles, s.articles, ByAuthor, e);
    }
    forall n | n in s.categories && n != a.category
      ensures i !in s.categories[n].articles
    {
      assert Owns(s.categories[n].articles, s.articles, ByCategory, n);
    }
  }
}

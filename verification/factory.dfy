/** The factory layer: memoising lookups of authors by email and categories by
    name over a caller-supplied registry, and article creation with optional
    publication. */
module Factory {
  import opened Wrappers
  import opened Entities

  /** The entity a lookup returns together with the registry after it. */
  datatype Resolved<T> = Resolved(entity: T, registry: map<string, T>)

  /** `EntityFactory.get_or_create_author`: the author stored under `email`
      if there is one (its stored name is kept even if `name` differs),
      otherwise a new author with no articles, inserted under `email`. */
  function GetOrCreateAuthor(name: string, email: string, authors: map<string, Author>): (r: Resolved<Author>)
    ensures email in r.registry && r.registry[email] == r.entity
    ensures forall e :: e in authors ==> e in r.registry && r.registry[e] == authors[e]
    ensures email in authors ==> r.registry == authors
    ensures email !in authors ==>
      && r.entity.name == name && r.entity.email == email && r.entity.articles == []
      && r.registry.Keys == authors.Keys + {email}
      && |r.registry| == |authors| + 1
  {
    if email in authors then
      Resolved(authors[email], authors)
    else
      var author := Author(name, email, []);
      Resolved(author, authors[email := author])
  }

  /** `EntityFactory.get_or_create_category`: the same memoising lookup,
      keyed by the category name. */
  function GetOrCreateCategory(name: string, categories: map<string, Category>): (r: Resolved<Category>)
    ensures name in r.registry && r.registry[name] == r.entity
    ensures forall n :: n in categories ==> n in r.registry && r.registry[n] == categories[n]
    ensures name in categories ==> r.registry == categories
    ensures name !in categories ==>
      && r.entity.name == name && r.entity.articles == []
      && r.registry.Keys == categories.Keys + {name}
      && |r.registry| == |categories| + 1
  {
    if name in categories then
      Resolved(categories[name], categories)
    else
      var category := Category(name, []);
      Resolved(category, categories[name := category])
  }

  /** `ArticleFactory.create_article`: constructs the article (linking it to
      its author and category) and publishes it at `now` when asked to. */
  function CreateArticle(s: Store, title: string, content: string, email: string, categoryName: string,
                         publish: bool, now: Timestamp): (r: Store)
    requires email in s.authors && categoryName in s.categories
    ensures |r.articles| == |s.articles| + 1 && r.articles[..|s.articles|] == s.articles
    ensures var a := r.articles[|s.articles|];
      && a.title == title && a.content == content
      && a.author == email && a.category == categoryName
      && (a.IsDraft() <==> !publish)
      && (publish ==> a.publishedAt == Some(now))
    ensures r.authors.Keys == s.authors.Keys && r.categories.Keys == s.categories.Keys
    ensures r.authors[email].articles == s.authors[email].articles + [|s.articles|]
    ensures r.authors[email].name == s.authors[email].name
    ensures r.authors[email].email == s.authors[email].email
    ensures r.categories[categoryName].articles == s.categories[categoryName].articles + [|s.articles|]
    ensures r.categories[categoryName].name == s.categories[categoryName].name
    ensures forall e :: e in s.authors && e != email ==> r.authors[e] == s.authors[e]
    ensures forall n :: n in s.categories && n != categoryName ==> r.categories[n] == s.categories[n]
  {
    var built := Construct(s, title, content, email, categoryName);
    if publish then PublishArticle(built, |s.articles|, now) else built
  }

  // ---------------------------------------------------------------------
  // The lookups keep registries keyed and stores well formed

  /** Over a registry keyed by email, the author returned carries the email
      asked for, and the registry stays keyed. */
  lemma GetOrCreateAuthorKeyed(name: string, email: string, authors: map<string, Author>)
    requires AuthorsKeyed(authors)
    ensures GetOrCreateAuthor(name, email, authors).entity.email == email
    ensures AuthorsKeyed(GetOrCreateAuthor(name, email, authors).registry)
  {
  }

  /** Over a registry keyed by name, the category returned carries the name
      asked for, and the registry stays keyed. */
  lemma GetOrCreateCategoryKeyed(name: string, categories: map<string, Category>)
    requires CategoriesKeyed(categories)
    ensures GetOrCreateCategory(name, categories).entity.name == name
    ensures CategoriesKeyed(GetOrCreateCategory(name, categories).registry)
  {
  }

  /** Resolving an author through a well-formed store keeps it well formed. */
  lemma {:induction false} ResolveAuthorKeepsWellFormed(s: Store, name: string, email: string)
    requires WellFormed(s)
    ensures WellFormed(s.(authors := GetOrCreateAuthor(name, email, s.authors).registry))
  {
    var r := s.(authors := GetOrCreateAuthor(name, email, s.authors).registry);
    forall i: nat | i < |r.articles|
      ensures Linked(r, i)
    {
      assert Linked(s, i);
    }
  }

  /** Resolving a category through a well-formed store keeps it well formed. */
  lemma {:induction false} ResolveCategoryKeepsWellFormed(s: Store, name: string)
    requires WellFormed(s)
    ensures WellFormed(s.(categories := GetOrCreateCategory(name, s.categories).registry))
  {
    var r := s.(categories := GetOrCreateCategory(name, s.categories).registry);
    forall i: nat | i < |r.articles|
      ensures Linked(r, i)
    {
      assert Linked(s, i);
    }
  }

  /** Creating an article, published or not, keeps the link invariant. */
  lemma {:induction false} CreateArticleKeepsWellFormed(s: Store, title: string, content: string, email: string,
                                                        categoryName: string, publish: bool, now: Timestamp)
    requires email in s.authors && categoryName in s.categories
    requires WellFormed(s)
    ensures WellFormed(CreateArticle(s, title, content, email, categoryName, publish, now))
  {
    ConstructKeepsWellFormed(s, title, content, email, categoryName);
    if publish {
      PublishKeepsWellFormed(Construct(s, title, content, email, categoryName), |s.articles|, now);
    }
  }

  // ---------------------------------------------------------------------
  // Repeated lookups with one email: the first name sticks

  /** The registry after looking up `email` once for each of `names`, in order. */
  function ResolveEach(names: seq<string>, email: string, authors: map<string, Author>): map<string, Author>
  {
    if |names| == 0 then authors
    else ResolveEach(names[1..], email, GetOrCreateAuthor(names[0], email, authors).registry)
  }

  /** Once an email is registered, further lookups with it change nothing. */
  lemma {:induction false} ResolveEachRegistered(names: seq<string>, email: string, authors: map<string, Author>)
    requires email in authors
    ensures ResolveEach(names, email, authors) == authors
  {
    if |names| > 0 {
      ResolveEachRegistered(names[1..], email, authors);
    }
  }

  /** However many lookups share one email, the registry holds exactly one
      author under it, carrying the name of the earliest lookup (or the name
      already stored), and every other entry is as before. */
  lemma {:induction false} FirstNameSticks(names: seq<string>, email: string, authors: map<string, Author>)
    requires |names| > 0
    ensures var m := ResolveEach(names, email, authors);
      && m.Keys == authors.Keys + {email}
      && m[email].email == (if email in authors then authors[email].email else email)
      && m[email].name == (if email in authors then authors[email].name else names[0])
      && forall e :: e in authors && e != email ==> m[e] == authors[e]
  {
    var first := GetOrCreateAuthor(names[0], email, authors).registry;
    ResolveEachRegistered(names[1..], email, first);
  }
}

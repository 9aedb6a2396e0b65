/** One round of the interactive program, with the console left out: the
    add-article action (rebuild the registries from the catalog, resolve the
    author and category, create and publish the article, append the records)
    and the choice of an article to display. */
module Session {
  import opened Wrappers
  import opened Entities
  import opened Factory
  import opened Catalog

  /** The add-article action on a freshly loaded catalog `c`, with the typed
      inputs as parameters and `now` the clock reading taken on publishing.
      The article is always published. The result is the catalog to save. */
  function AddArticleStep(c: Snapshot, name: string, email: string, categoryName: string,
                          title: string, content: string, now: Timestamp): (r: Snapshot)
    ensures r == AppendArticle(c, name, email, categoryName, title, content, now)
    ensures r.articles == c.articles + [ArticleRecord(title, content, email, categoryName, now)]
  {
    var authors := AuthorsFromRecords(c.authors);
    var categories := CategoriesFromRecords(c.categories);
    var author := GetOrCreateAuthor(name, email, authors);
    var category := GetOrCreateCategory(categoryName, categories);
    GetOrCreateAuthorKeyed(name, email, authors);
    GetOrCreateCategoryKeyed(categoryName, categories);
    var live := Store(author.registry, category.registry, []);
    var s := CreateArticle(live, title, content, author.entity.email, category.entity.name, true, now);
    var article := s.articles[0];
    var r := AppendArticle(c, author.entity.name, author.entity.email, category.entity.name,
                           article.title, article.content, article.publishedAt.value);
    assert r.articles == c.articles + [ArticleRecord(title, content, email, categoryName, now)] by {
      assert r.articles[..|c.articles|] == c.articles;
    }
    r
  }

  /** The live objects the add-article action starts from, rebuilt from the
      records with no articles yet, satisfy the link invariant; so the
      preservation lemmas of the entity layer apply along the action. */
  lemma RebuiltStoreWellFormed(c: Snapshot)
    ensures WellFormed(Store(AuthorsFromRecords(c.authors), CategoriesFromRecords(c.categories), []))
  {
  }

  /** Saving after the add-article action keeps author emails and category
      names unique, and the catalog gains exactly one article. */
  lemma AddArticleKeepsUnique(c: Snapshot, name: string, email: string, categoryName: string,
                              title: string, content: string, now: Timestamp)
    ensures var r := AddArticleStep(c, name, email, categoryName, title, content, now);
      && (UniqueEmails(c.authors) ==> UniqueEmails(r.authors))
      && (UniqueCategoryNames(c.categories) ==> UniqueCategoryNames(r.categories))
      && |r.articles| == |c.articles| + 1
  {
    AppendKeepsUnique(c, name, email, categoryName, title, content, now);
  }

  /** Submitting twice with one new email but different names records the
      author once, under the first name, and records two articles: there is
      no duplicate-article detection. The second action is applied to the
      catalog the first one produced, which assumes that the saved file reads
      back as the catalog that was saved. */
  lemma ResubmissionKeepsFirstName(c: Snapshot, name1: string, name2: string, email: string, categoryName: string,
                                   title: string, content: string, now1: Timestamp, now2: Timestamp)
    requires !HasEmail(c.authors, email)
    ensures var r := AddArticleStep(AddArticleStep(c, name1, email, categoryName, title, content, now1),
                                    name2, email, categoryName, title, content, now2);
      && r.authors == c.authors + [AuthorRecord(name1, email)]
      && r.articles == c.articles + [ArticleRecord(title, content, email, categoryName, now1),
                                     ArticleRecord(title, content, email, categoryName, now2)]
  {
    var r1 := AddArticleStep(c, name1, email, categoryName, title, content, now1);
    AppendTwiceKeepsFirstName(c, name1, name2, email, categoryName, title, content, now1, now2);
    assert r1 == AppendArticle(c, name1, email, categoryName, title, content, now1);
  }

  /** From a missing file, adding Ana's article "Hello" in "Tech" yields a
      catalog of exactly one author, one category and one article. */
  lemma FirstArticleScenario(now: Timestamp)
    ensures var r := AddArticleStep(Load(None), "Ana", "ana@x.com", "Tech", "Hello", "World", now);
      && r.authors == [AuthorRecord("Ana", "ana@x.com")]
      && r.categories == [CategoryRecord("Tech")]
      && r.articles == [ArticleRecord("Hello", "World", "ana@x.com", "Tech", now)]
  {
    var r := AddArticleStep(Load(None), "Ana", "ana@x.com", "Tech", "Hello", "World", now);
    assert r.authors[..0] == [];
    assert r.categories[..0] == [];
  }

  // ---------------------------------------------------------------------
  // Choosing an article to display

  /** What the article view shows: a notice that there are no articles, a
      notice that the number is invalid, or the chosen article. */
  datatype View = NoArticles | InvalidNumber | Shown(article: ArticleRecord)

  /** `exibir_artigo` for an already-parsed 1-based choice. */
  function ViewArticle(articles: seq<ArticleRecord>, choice: int): (r: View)
    ensures r.NoArticles? <==> |articles| == 0
    ensures r.Shown? <==> 1 <= choice <= |articles|
    ensures r.InvalidNumber? <==> |articles| > 0 && !(1 <= choice <= |articles|)
    ensures r.Shown? ==> r.article == articles[choice - 1]
  {
    if |articles| == 0 then NoArticles
    else if 1 <= choice <= |articles| then Shown(articles[choice - 1])
    else InvalidNumber
  }

  /** Every listed article can be shown by its number in the listing, and
      only listed articles are ever shown. */
  lemma ViewShowsExactlyListed(articles: seq<ArticleRecord>, choice: int)
    ensures forall i :: 0 <= i < |articles| ==> ViewArticle(articles, i + 1) == Shown(articles[i])
    ensures ViewArticle(articles, choice).Shown? ==> ViewArticle(articles, choice).article in articles
  {
  }

  /** Choosing number 99 out of two articles is reported as invalid. */
  lemma OutOfRangeScenario(a: ArticleRecord, b: ArticleRecord)
    ensures ViewArticle([a, b], 99) == InvalidNumber
    ensures ViewArticle([a, b], 0) == InvalidNumber
    ensures ViewArticle([], 1) == NoArticles
  {
  }
}

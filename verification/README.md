# Catalog manager: entity model, lookups and catalog updates

This project models the in-memory core of a small command-line catalog
manager for articles, authors and categories (`main.py`). The model covers:

- the entity model: `Author` (keyed by email), `Category` (keyed by name) and
  `Article` (title, content, author, category, optional publication time),
  with the `edit` and `publish` mutators;
- the bidirectional links set up when an article is constructed: the article
  registers itself in its author's and its category's article lists;
- the memoising lookups `get_or_create_author` / `get_or_create_category` over
  a caller-supplied registry, and `create_article` with optional publication;
- the persisted catalog as three lists of plain records, the "missing file
  gives an empty catalog" rule, the rebuilding of the registries from those
  records, the add-article update of the catalog, and the rule that picks an
  article to display from a 1-based number.

Objects with identity are modelled as immutable values. Articles live in an
arena (`Entities.Store.articles`), and an article's identity is its position
there. Authors and categories hold sequences of arena indices, and an article
names its author by email and its category by name. `Entities.WellFormed` is
the link invariant: registries are keyed by their identity field, every
owner's list is in creation order and names only articles that point back to
that owner, and every article is listed by both of its owners. Every
operation on a store is proved to preserve this invariant.

Modules: `Wrappers` (`Option`), `Entities` (entities, mutators, article
construction, link invariant), `Factory` (lookups and article creation),
`Catalog` (the `Snapshot` of records and catalog operations), `Session` (the add-article action
and the article view, with the console removed).

The clock is a parameter. `Timestamp` is an opaque string that the caller
supplies as the current time, already rendered. The typed inputs of the
add-article action and the chosen article number are also parameters.

## Model

| member | source | states |
|---|---|---|
| `Entities.Edit` | main.py:77-79 | title and content become the new values; author, category and publication time are unchanged |
| `Entities.Publish` | main.py:81-82 | the article becomes published at the given time, overwriting any earlier time; every other field is unchanged |
| `Entities.Construct` | main.py:46-55 | the new draft article is appended once at the end of the arena, and its index is appended to exactly its author's and its category's lists; all other entries and both key sets are unchanged |
| `Entities.EditArticle` | main.py:77-79 | editing article `id` changes only that article's title and content; the registries and all other articles are unchanged |
| `Entities.PublishArticle` | main.py:81-82 | publishing article `id` sets only that article's publication time; the registries and all other articles are unchanged |
| `Entities.ConstructKeepsWellFormed` | main.py:46-55 | constructing an article preserves the link invariant, so the new article is linked both ways in creation order |
| `Entities.EditKeepsWellFormed` | main.py:77-79 | editing preserves the link invariant |
| `Entities.PublishKeepsWellFormed` | main.py:81-82 | publishing preserves the link invariant |
| `Entities.PublicationIsOneWay` | main.py:77-82 | no edit or publish of any article turns a published article back into a draft |
| `Entities.ListedExactlyOnce` | main.py:54-55 | in a well-formed store, each article occurs exactly once (multiset count 1) in its author's list and in its category's list, and in no other author's or category's list |
| `Factory.GetOrCreateAuthor` | main.py:90-95 | a known email returns the stored author, keeping its stored name, and leaves the registry unchanged; an unknown email adds exactly one entry (name and email as given, no articles), and the registry grows by one; the returned author is always the registry's entry for the email |
| `Factory.GetOrCreateCategory` | main.py:98-103 | the same memoising behaviour keyed by category name |
| `Factory.GetOrCreateAuthorKeyed` | main.py:90-95 | over a registry keyed by email, the returned author carries the requested email and the registry stays keyed |
| `Factory.GetOrCreateCategoryKeyed` | main.py:98-103 | over a registry keyed by name, the returned category carries the requested name and the registry stays keyed |
| `Factory.ResolveAuthorKeepsWellFormed` | main.py:90-95 | an author lookup preserves the link invariant of the store |
| `Factory.ResolveCategoryKeepsWellFormed` | main.py:98-103 | a category lookup preserves the link invariant of the store |
| `Factory.CreateArticle` | main.py:107-111 | the new article has the given title, content, author and category; it is a draft iff `publish` is false, and it is published at `now` when `publish` is true; it is appended to its author's and category's lists and nothing else changes |
| `Factory.CreateArticleKeepsWellFormed` | main.py:107-111 | article creation, published or not, preserves the link invariant |
| `Factory.ResolveEachRegistered` | main.py:90-92 | once an email is registered, any number of further lookups with it leave the registry unchanged |
| `Factory.FirstNameSticks` | main.py:90-95 | after any non-empty series of lookups with one email, the registry holds one author under it, with the name of the first lookup (or the name already stored), and no other entry changes |
| `Catalog.Load` | main.py:113-118 | a missing file loads as three empty lists; a present file loads as its contents |
| `Catalog.AppendArticle` | main.py:233-245 | an author record is appended only for an unseen email, and a category record only for an unseen name; exactly one article record is always appended, carrying the email and the category name; the earlier records are kept as a prefix |
| `Catalog.AppendKeepsUnique` | main.py:233-245 | appending preserves uniqueness of emails and of category names; the sets of emails and names each gain exactly the new key |
| `Catalog.AppendTwiceKeepsFirstName` | main.py:233-245 | two appends with one new email and different author names give one author record, with the first name, and two article records in order |
| `Catalog.AuthorsFromRecords` | main.py:179 | the rebuilt registry has exactly the recorded emails as keys, each mapped to an article-less author with that email and with the name of the last record for it |
| `Catalog.CategoriesFromRecords` | main.py:180 | the rebuilt registry has exactly the recorded category names as keys, each mapped to an article-less category of that name |
| `Catalog.AuthorsFromUniqueRecords` | main.py:179 | with unique emails, every record is reproduced exactly by the registry entry for its email |
| `Session.AddArticleStep` | main.py:219-247 | going through the entity layer (rebuild, lookups, create and publish) saves exactly the catalog update of the typed inputs: the new article record is title, content, email, category name and the publish time |
| `Session.RebuiltStoreWellFormed` | main.py:178-180 | the registries rebuilt from the records, with no articles yet, satisfy the link invariant, so the entity-layer preservation lemmas apply to the add-article action |
| `Session.AddArticleKeepsUnique` | main.py:233-245 | the add-article action preserves unique emails and unique category names, and adds exactly one article |
| `Session.ResubmissionKeepsFirstName` | main.py:221-245 | submitting twice with one new email but different names records the author once, under the first name, and records both articles (no duplicate detection); the second action runs on the catalog the first produced, assuming the saved file reads back unchanged |
| `Session.FirstArticleScenario` | main.py:221-245 | from a missing file, adding Ana's "Hello" article in "Tech" gives exactly one author, one category and one article record |
| `Session.ViewArticle` | main.py:139-163 | an empty list yields the no-articles notice; otherwise a choice is shown iff `1 <= n <= len`, and it is then article `n-1`; any other choice is invalid |
| `Session.ViewShowsExactlyListed` | main.py:147-153 | every listed article is shown by its listing number, and only listed articles are ever shown |
| `Session.OutOfRangeScenario` | main.py:152-163 | choosing 99 (or 0) out of two articles is reported as invalid; any choice in an empty catalog reports that there are no articles |

## Left out

- Console output, prompts and screen clearing (`print`, `input`, `os.system('cls')`), the menu loops of `main` and `os.abort()` on exit (main.py:169-253): these are presentation with no state of their own. The typed inputs become parameters of `Session.AddArticleStep` and `Session.ViewArticle`.
- Parsing the chosen number with `int(...)` and its `ValueError` notice (main.py:151, 164-165): the view takes an already-parsed integer.
- JSON parsing and writing (`json.load`, `json.dump`, `save_to_json`, main.py:113-122): these are file I/O through a library that is not part of this model. `Catalog.Load` takes the parsed file as an `Option`. No save/reload round trip is claimed, and a malformed file is not modelled.
- A file missing one of the three lists: the registries are rebuilt leniently with a default empty list (main.py:179-180), but the add-article update indexes the lists strictly (main.py:233, 236, 239) and would raise `KeyError`. `Catalog.Snapshot` always has all three lists, so this case is not modelled.
- `datetime.now()` and `strftime` (main.py:82, 244): the time is an opaque string supplied by the caller. The article is stamped with it and the record stores the same value. `strftime` on an unpublished article would fail, but the add-article action always publishes.
- `__str__` renderings and `show_data` (main.py:25-26, 43-44, 84-85, 124-137): these only format text for display.
- `Author.add_article` / `Category.add_article` and the getters (main.py:11-23, 33-41, 57-75): appending to the lists is part of `Entities.Construct`, and the getters are plain field reads.
- `Entities.Construct`: requires the author and category to be registered in the store. In Python any `Author`/`Category` object may be passed. In the value model an article names its owners by key, so the owners must be registered for their lists to be updated.
- `Factory.CreateArticle`: requires the author and category to be registered in the store, for the same reason as `Entities.Construct`; the add-article action always calls it with the entries its lookups just returned.
- Object identity: two Python `Author` objects with equal fields are distinct, but here they are equal values. The program never compares entities by identity.

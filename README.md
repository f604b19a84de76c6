# Article service: a Dafny model

This project models the core of a small article service, an article CRUD backend
on a document store. It covers four parts:

- **Article validation** (`articles.dfy`, module `Articles`). The `Article` record
  has seven nullable fields, modelled as `Option`s. Six of them carry bean-validation
  constraints. `@NotBlank` means "not null, and `String.trim()` leaves something";
  trim strips every character at or below U+0020. `@NotNull` means the date is set.
  `@NotEmpty` means the list is set and non-empty. `Validate` reports each failing
  field as `"<field>: <message>"`. `text` declares no message, so it gets the
  validator's default, `must not be blank`.
- **The repository** (`store.dfy`, module `Store`). The store is a class holding a
  `map<string, Article>` from id to document. `Insert`, `Save`, `DeleteById` and
  `Delete` change the map. `FindById`, `Count` and the three finders read it. A finder
  answers with the id-keyed sub-map of matching documents. Its class invariant,
  `Consistent`, says that each document is filed under its own id and is valid.
- **The service** (`service.dfy`, module `Service`). `ArticleService` owns a store.
  `Update` and `Delete` first look the id up, then call `Save` or `Delete`. An
  unknown id fails with `NotFound(id)` and changes nothing. The queries pass the
  store's answer through unchanged.
- **flattenArray** (`array_util.dfy`, module `ArrayUtil`). `Flatten` is the pure
  depth-first definition. `FlattenArray` is the imperative walk: it appends to a
  caller-owned `IntList` and recurses into nested lists.

`scenarios.dfy` (module `Scenarios`) works through the repository tests' finder
scenarios on concrete documents. `wrappers.dfy` holds `Option`, `Result` and
`Outcome`. `errors.dfy` holds the failure kinds.

Decisions where the sources leave room:

- **Where validation runs.** The service's `create` does not validate; it calls
  `insert`. The validation message that reaches clients comes from the store's write:
  the repository test expects `save` to throw it. So the model validates inside
  `ArticleStore.Insert` and `ArticleStore.Save`. A consequence: `update` of an invalid
  article with a known id fails with `ValidationError` inside `save`. The service
  itself performs only the existence check.
- **The order of messages.** Bean validation promises no order when several fields
  fail. The model joins the messages with `", "` in field-declaration order. Only the
  single-violation message is stated exactly (`SingleViolation`).
- **The date range.** The repository's comment documents the range as from-included,
  to-excluded. That is what `PublishedIn` models. The controller integration test
  disagrees: it queries Jan 10 to Jan 14 over documents dated Jan 10 to Jan 14 and
  expects 3 (`ArticleControllerIntegrationTest.java:177-183` against the data at
  `:208-268`). That count fits only an interval open at both ends; the documented
  reading gives 4. The repository test (Jan 1 to Jan 4, range Dec 24 to Jan 3, 2
  results) fits both readings. It is proved in `Scenarios.PeriodScenario`.
- **Dates** are epoch milliseconds (`int`), as the controller passes them. The
  scenarios use UTC midnights; the tests use the JVM's local time zone.
- **Fresh ids** are chosen non-deterministically: some string not yet stored
  (`FreshIdExists`, `ArticleStore.StoreNew`).
- **Null ids.** An `update` whose article has no id fails with `MissingId`, because
  the store refuses to look up a null id. An `insert` whose article names an id that
  is already stored fails with `DuplicateKey`.

## Model

| member | source | states |
|---|---|---|
| Articles.StructuralEquality | src/main/java/com/upday/news/model/Article.java:24-56 | two articles are equal iff all seven fields are, the id included |
| Articles.TrimStart | src/main/java/com/upday/news/model/Article.java:34-44 | the result is a suffix of the input; everything cut off is trimmable; the result is empty or starts with a non-trimmable character |
| Articles.TrimEnd | src/main/java/com/upday/news/model/Article.java:34-44 | the result is a prefix of the input; everything cut off is trimmable; the result is empty or ends with a non-trimmable character |
| Articles.TrimEmptyIffAllTrimmable | src/main/java/com/upday/news/model/Article.java:34-44 | trim leaves nothing iff every character is at or below U+0020 (what @NotBlank tests) |
| Articles.WhitespaceIsBlank | src/main/java/com/upday/news/model/Article.java:42-44 | an article whose text trims to nothing (only whitespace or control characters) has `text` among its violations and fails validation |
| Articles.ViolationsExact | src/main/java/com/upday/news/model/Article.java:34-56 | a field is reported iff its declared constraint fails |
| Articles.Valid | src/main/java/com/upday/news/model/Article.java:34-56 | an article is valid iff header, short description and text are not blank, the publish date is set, and authors and keywords are non-empty |
| Articles.ViolationsEmptyIffValid | src/main/java/com/upday/news/model/Article.java:34-56 | no field is reported iff every field constraint holds |
| Articles.Validate | src/main/java/com/upday/news/model/Article.java:34-56 | validation passes iff the article is valid; otherwise it fails with the rendered violations |
| Articles.SingleViolation | src/main/java/com/upday/news/model/Article.java:34-56 | when exactly one field fails, the message is "<field>: <that field's message>" |
| Articles.MissingHeaderRejected | src/main/java/com/upday/news/model/Article.java:34-36 | an otherwise valid article with a null or blank header is rejected with exactly "header: The header must not be blank." |
| Articles.MissingAuthorsRejected | src/main/java/com/upday/news/model/Article.java:50-52 | an otherwise valid article with null or empty authors is rejected with exactly "authors: At least one author must be set." |
| Articles.ValidationIgnoresId | src/main/java/com/upday/news/model/Article.java:30-32 | changing the id changes neither validity nor the validation outcome |
| Store.QueryEmptyIffNoMatch | src/main/java/com/upday/news/model/ArticleRepository.java:16-39 | a finder's answer is empty (not an error) iff no stored document matches |
| Store.WhereSplit | src/main/java/com/upday/news/model/ArticleRepository.java:16-39 | when each document matching a query matches exactly one of two other queries, the answer is the disjoint union of theirs and the counts add up |
| Store.PeriodsSplit | src/main/java/com/upday/news/model/ArticleRepository.java:32-39 | with [from, to), two adjacent periods have disjoint answers whose union is the whole period's answer, and the counts add up |
| Store.PeriodBounds | src/main/java/com/upday/news/model/ArticleRepository.java:35-36 | a document dated at `from` is in the period; one dated at `to` is not |
| Store.FreshIdExists | src/main/java/com/upday/news/model/Article.java:30-32 | some id is always free for the store to generate |
| Store.FreshKeepsConsistent | src/main/java/com/upday/news/model/Article.java:30-32 | filing a validated article under a fresh id keeps every document valid and under its own id |
| Store.InsertKeepsConsistent | src/main/java/com/upday/news/model/ArticleRepository.java:14 | insert preserves the store invariant: each document valid and filed under its own id |
| Store.SaveKeepsConsistent | src/main/java/com/upday/news/model/ArticleRepository.java:14 | save preserves the store invariant |
| Store.InsertSucceedsIff | src/test/java/com/upday/news/model/ArticleRepositoryIntegrationTest.java:41-75 | insert succeeds iff the article is valid and its id is unset or not yet stored |
| Store.InsertRoundTrip | src/test/java/com/upday/news/model/ArticleRepositoryIntegrationTest.java:41-54 | a successful insert returns the article with a new id and all other fields unchanged; findById then yields it; the count grows by one |
| Store.SaveThenFind | src/test/java/com/upday/news/model/ArticleRepositoryIntegrationTest.java:80-94 | after a successful save, the id holds the saved article; an article that had an id comes back equal |
| Store.SaveWithoutAuthorsRefused | src/test/java/com/upday/news/model/ArticleRepositoryIntegrationTest.java:60-75 | a save with null authors fails with "authors: At least one author must be set." and the documents and count are unchanged |
| Store.DeleteByIdCount | src/test/java/com/upday/news/model/ArticleRepositoryIntegrationTest.java:99-113 | deleting a stored id removes it and lowers the count by one |
| Store.ArticleStore.constructor | src/test/java/com/upday/news/model/ArticleRepositoryIntegrationTest.java:33-36 | a new store is empty and consistent |
| Store.ArticleStore.Count | src/main/java/com/upday/news/model/ArticleRepository.java:14 | the number of distinct stored ids; zero iff nothing is stored |
| Store.ArticleStore.FindById | src/main/java/com/upday/news/model/ArticleRepository.java:14 | present iff the id is stored, then the document filed under it, which carries that id and is valid |
| Store.ArticleStore.FindByAuthors | src/main/java/com/upday/news/model/ArticleRepository.java:16-22 | exactly the stored documents whose author list contains the author, each as stored |
| Store.ArticleStore.FindByKeywords | src/main/java/com/upday/news/model/ArticleRepository.java:24-30 | exactly the stored documents whose keyword list contains the keyword, each as stored |
| Store.ArticleStore.FindByPublishDateBetween | src/main/java/com/upday/news/model/ArticleRepository.java:32-39 | exactly the stored documents with a publish date in [from, to), each as stored |
| Store.ArticleStore.StoreNew | src/main/java/com/upday/news/model/Article.java:30-31 | files a validated article under a generated id that was free |
| Store.ArticleStore.Insert | src/test/java/com/upday/news/model/ArticleRepositoryIntegrationTest.java:48-53 | the new documents are those the insert relation allows (validation, fresh or given id, duplicate key); the invariant holds |
| Store.ArticleStore.Save | src/test/java/com/upday/news/model/ArticleRepositoryIntegrationTest.java:85-93 | the new documents are those the save relation allows (validation, then overwrite by id or insert); the invariant holds |
| Store.ArticleStore.DeleteById | src/test/java/com/upday/news/model/ArticleRepositoryIntegrationTest.java:108 | the documents are the old ones without `id`, nothing else changes |
| Store.ArticleStore.Delete | src/main/java/com/upday/news/service/ArticleService.java:67 | deleting an entity removes exactly the document under its id |
| Scenarios.AuthorScenario | src/test/java/com/upday/news/model/ArticleRepositoryIntegrationTest.java:118-131 | authors {1,2}, {2,3}, {5,6}: "author2" finds exactly the first two documents |
| Scenarios.KeywordScenario | src/test/java/com/upday/news/model/ArticleRepositoryIntegrationTest.java:136-149 | keywords {5,6}, {6,7}, {9,10}: "keyword6" finds exactly the first two documents |
| Scenarios.PeriodScenario | src/test/java/com/upday/news/model/ArticleRepositoryIntegrationTest.java:154-177 | dates Jan 1 to Jan 4 with range Dec 24 to Jan 3: exactly the Jan 1 and Jan 2 documents |
| Scenarios.UnknownAuthorScenario | src/main/java/com/upday/news/model/ArticleRepository.java:16-22 | an author nobody lists gives an empty answer |
| Service.Lookup | src/main/java/com/upday/news/service/ArticleService.java:81-90 | present iff the id is stored, then the stored article; otherwise NotFound(id) |
| Service.CreateThenFind | src/main/java/com/upday/news/service/ArticleService.java:27-36 | creating a valid unsaved article succeeds with a new id and the other fields unchanged; reading that id back yields the same article |
| Service.UpdateReplaces | src/main/java/com/upday/news/service/ArticleService.java:44-54 | a successful update had a stored target, replaced it by the given article, returned that article, and kept the count |
| Service.UpdateOnlyTarget | src/main/java/com/upday/news/service/ArticleService.java:44-54 | update changes no document other than its target |
| Service.DeleteThenFind | src/main/java/com/upday/news/service/ArticleService.java:62-73 | a successful delete returns the snapshot read before removal; findById then fails with NotFound; the count drops by one; no other document changes |
| Service.UpdateSucceedsIff | src/main/java/com/upday/news/service/ArticleService.java:44-54 | update succeeds iff the target id is stored and the article is valid |
| Service.DeleteSucceedsIff | src/main/java/com/upday/news/service/ArticleService.java:62-73 | delete succeeds iff the id is stored |
| Service.ArticleService.constructor | src/main/java/com/upday/news/service/ArticleService.java:24-25 | the service is wired to the given repository |
| Service.ArticleService.Create | src/main/java/com/upday/news/service/ArticleService.java:34-36 | the outcome and the new documents are those of the store's insert |
| Service.ArticleService.Update | src/main/java/com/upday/news/service/ArticleService.java:44-54 | a null id fails with MissingId, an unknown id fails with NotFound, and in both cases nothing changes; a known id is saved |
| Service.ArticleService.Delete | src/main/java/com/upday/news/service/ArticleService.java:62-73 | a known id is removed and its pre-deletion snapshot returned; an unknown id fails with NotFound and nothing changes |
| Service.ArticleService.FindById | src/main/java/com/upday/news/service/ArticleService.java:81-90 | returns the stored article (with that id, valid) when present, NotFound otherwise; changes nothing |
| Service.ArticleService.FindByAuthor | src/main/java/com/upday/news/service/ArticleService.java:98-100 | exactly the store's answer: the documents listing the author; changes nothing |
| Service.ArticleService.FindByPublishDateBetween | src/main/java/com/upday/news/service/ArticleService.java:109-111 | exactly the store's answer: the documents dated in [from, to); changes nothing |
| Service.ArticleService.FindByKeyword | src/main/java/com/upday/news/service/ArticleService.java:119-121 | exactly the store's answer: the documents listing the keyword; changes nothing |
| ArrayUtil.Flatten | src/main/java/com/upday/util/ArrayUtil.java:22-34 | the integer leaves, depth first and left to right; as many values as there are Integer leaves in the tree |
| ArrayUtil.FlattenArray | src/main/java/com/upday/util/ArrayUtil.java:22-34 | the result list is its old contents followed by Flatten(original) |
| ArrayUtil.IntList.Add | src/main/java/com/upday/util/ArrayUtil.java:31 | appends one value at the end |
| ArrayUtil.FlattenAppend | src/main/java/com/upday/util/ArrayUtil.java:24-33 | Flatten(a + b) == Flatten(a) + Flatten(b) |
| ArrayUtil.FlattenFlat | src/main/java/com/upday/util/ArrayUtil.java:29-31 | a list of plain Integers flattens to its own values, in order |
| ArrayUtil.NestingIsTransparent | src/main/java/com/upday/util/ArrayUtil.java:26-28 | wrapping a list in another one does not change its flattening |
| ArrayUtil.OtherIgnored | src/main/java/com/upday/util/ArrayUtil.java:26-32 | an element that is neither Integer nor List contributes nothing, wherever it stands |
| ArrayUtil.NestedExample | src/test/java/com/upday/util/ArrayUtilTest.java:17-36 | [[1,2,[3]],4] flattens to [1,2,3,4] |
| ArrayUtil.NonIntegerExample | src/test/java/com/upday/util/ArrayUtilTest.java:51-68 | [[1,2,[3]],4,"Not an Integer!"] flattens to [1,2,3,4] |
| ArrayUtil.EmptyExample | src/test/java/com/upday/util/ArrayUtilTest.java:38-49 | the empty list flattens to nothing |

## Left out

- HTTP routing, JSON binding, logging, and the mapping of failures to 400/404 error
  bodies in `ArticleController.java` and `ErrorDetails.java`: these are transport.
- `ArticleNotFoundException.java` and its message text: it is the `NotFound(id)`
  failure.
- The document engine itself: the ObjectId format, and store-level connectivity or
  timeout failures.
- Concurrency: each service call is atomic, so the model does not capture the race
  between the lookup and the write in `update` and `delete`.
- The order of a finder's list: the store chooses it, so a finder is modelled as the
  id-keyed map of its matches.
- The order in which several violations are reported: bean validation leaves it
  open. The model fixes one order, and only single-violation messages are stated
  exactly.
- Store.ArticleStore.Delete: requires an entity with an id. The store rejects an
  entity without one, and the service only passes entities it has just read.
- Store.PublishedIn: models the documented reading, from included and to excluded. The
  controller integration test expects the derived `Between` query to exclude both ends
  (3 results for Jan 10 to Jan 14, see "The date range" above). The model does not
  capture that behaviour, and no lemma states the test's count.
- Store.ArticleStore.Insert: returns the stored article, with its generated id, as a
  new value. The store also writes that id into the caller's object in place, and
  the model does not capture that aliasing. The same holds for
  Store.ArticleStore.Save of an article without an id.
- ArrayUtil.FlattenArray: the input is a finite tree of values. A list that contains
  itself (the Java method then overflows the stack), or an input that aliases the
  result list (a ConcurrentModificationException), cannot be expressed.
- Articles.ConstraintMessage: `must not be blank` for `text` is the validator's
  default message under an English locale; other locales give other texts, which are
  not modelled.
- The `@NotNull`/`@NotBlank` annotations on the service's parameters: they are not
  enforced on this class, so the model does not check them either.

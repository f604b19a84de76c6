/** The article repository: a document store keyed by id, with the inherited CRUD
    operations and the three derived finder queries. Bean validation runs on every
    write (insert and save) before anything is stored. */
module Store {
  import opened Wrappers
  import opened Articles
  import opened Errors

  /** The stored documents, keyed by id. */
  type Records = map<string, Article>

  /** What the store keeps true of its documents: each is filed under its own id and
      passed validation on its way in. */
  ghost predicate Consistent(m: Records) {
    forall id :: id in m ==> m[id].articleId == Some(id) && Articles.Valid(m[id])
  }

  // ---------------------------------------------------------------------------
  // Queries

  /** `author` is one of the article's authors (exact element equality). */
  predicate HasAuthor(a: Article, author: string) {
    a.authors.Some? && author in a.authors.value
  }

  /** `keyword` is one of the article's keywords (exact element equality). */
  predicate HasKeyword(a: Article, keyword: string) {
    a.keywords.Some? && keyword in a.keywords.value
  }

  /** The article was published in the half-open period [from, to). */
  predicate PublishedIn(a: Article, from: Millis, to: Millis) {
    a.publishDate.Some? && from <= a.publishDate.value < to
  }

  /** The stored documents that satisfy `p`, keyed by id. A finder returns them as a
      list in an order of the store's choosing; this is that list without its order. */
  function Where(m: Records, p: Article -> bool): (r: Records)
    ensures forall id :: id in r <==> id in m && p(m[id])
    ensures forall id :: id in r ==> r[id] == m[id]
  {
    map id | id in m && p(m[id]) :: m[id]
  }

  /** findByAuthors on the documents `m`. */
  function ByAuthor(m: Records, author: string): Records {
    Where(m, (a: Article) => HasAuthor(a, author))
  }

  /** findByKeywords on the documents `m`. */
  function ByKeyword(m: Records, keyword: string): Records {
    Where(m, (a: Article) => HasKeyword(a, keyword))
  }

  /** findByPublishDateBetween on the documents `m`. */
  function ByPublishDate(m: Records, from: Millis, to: Millis): Records {
    Where(m, (a: Article) => PublishedIn(a, from, to))
  }

  /** A finder answers with an empty list, never an error, exactly when no stored
      document matches. */
  lemma QueryEmptyIffNoMatch(m: Records, p: Article -> bool)
    ensures Where(m, p) == map[] <==> forall id :: id in m ==> !p(m[id])
  {
    if Where(m, p) != map[] {
      var id :| id in Where(m, p);
      assert id in m && p(m[id]);
    }
  }

  /** When every document matching `whole` matches exactly one of `p` and `q`, the
      answer for `whole` is the disjoint union of the answers for `p` and `q`. */
  lemma WhereSplit(m: Records, whole: Article -> bool, p: Article -> bool, q: Article -> bool)
    requires forall id :: id in m ==> (whole(m[id]) <==> p(m[id]) || q(m[id]))
    requires forall id :: id in m ==> !(p(m[id]) && q(m[id]))
    ensures Where(m, p).Keys !! Where(m, q).Keys
    ensures Where(m, whole) == Where(m, p) + Where(m, q)
    ensures |Where(m, whole)| == |Where(m, p)| + |Where(m, q)|
  {
    var w, l, r := Where(m, whole), Where(m, p), Where(m, q);
    assert w.Keys == l.Keys + r.Keys;
    assert w == l + r;
  }

  /** Reading "between" as [from, to): two adjacent periods split the documents of the
      period they make up, with no document counted twice. */
  lemma PeriodsSplit(m: Records, from: Millis, mid: Millis, to: Millis)
    requires from <= mid <= to
    ensures ByPublishDate(m, from, mid).Keys !! ByPublishDate(m, mid, to).Keys
    ensures ByPublishDate(m, from, to) == ByPublishDate(m, from, mid) + ByPublishDate(m, mid, to)
    ensures |ByPublishDate(m, from, to)| == |ByPublishDate(m, from, mid)| + |ByPublishDate(m, mid, to)|
  {
    WhereSplit(m, (a: Article) => PublishedIn(a, from, to),
               (a: Article) => PublishedIn(a, from, mid), (a: Article) => PublishedIn(a, mid, to));
  }

  /** The period's start is included and its end excluded. */
  lemma PeriodBounds(a: Article, from: Millis, to: Millis)
    requires a.publishDate == Some(from) && from < to
    ensures PublishedIn(a, from, to)
    ensures !PublishedIn(a.(publishDate := Some(to)), from, to)
  {
  }

  // ---------------------------------------------------------------------------
  // Writes, as relations between the documents before and after

  /** `r` is `a` stored under a newly generated id, one not in `before`, and `after`
      holds it there. */
  ghost predicate StoredUnderFreshId(before: Records, after: Records, a: Article, r: Result<Article, Error>) {
    && r.Success?
    && r.value.articleId.Some?
    && r.value.articleId.value !in before
    && r.value == a.(articleId := r.value.articleId)
    && after == before[r.value.articleId.value := r.value]
  }

  /** Validation refused `a`: the write fails with the validator's message and stores nothing. */
  ghost predicate Refused(before: Records, after: Records, a: Article, r: Result<Article, Error>) {
    Validate(a).Fail? && r == Failure(ValidationError(Validate(a).error)) && after == before
  }

  /** insert: validate; a document without an id gets a fresh one; one whose id is
      already stored is refused as a duplicate key. */
  ghost predicate Inserted(before: Records, after: Records, a: Article, r: Result<Article, Error>) {
    if Validate(a).Fail? then Refused(before, after, a, r)
    else match a.articleId
      case None => StoredUnderFreshId(before, after, a, r)
      case Some(id) =>
        if id in before then r == Failure(DuplicateKey(id)) && after == before
        else r == Success(a) && after == before[id := a]
  }

  /** save: validate; a document without an id is inserted under a fresh one, one with
      an id overwrites (or creates) the document filed under it. */
  ghost predicate Saved(before: Records, after: Records, a: Article, r: Result<Article, Error>) {
    if Validate(a).Fail? then Refused(before, after, a, r)
    else match a.articleId
      case None => StoredUnderFreshId(before, after, a, r)
      case Some(id) => r == Success(a) && after == before[id := a]
  }

  /** Storing a validated article under a fresh id keeps the store consistent. */
  lemma FreshKeepsConsistent(before: Records, after: Records, a: Article, r: Result<Article, Error>)
    requires Consistent(before) && Validate(a) == Pass
    requires StoredUnderFreshId(before, after, a, r)
    ensures Consistent(after)
  {
    ValidationIgnoresId(a, r.value.articleId);
  }

  /** insert keeps the store consistent. */
  lemma InsertKeepsConsistent(before: Records, after: Records, a: Article, r: Result<Article, Error>)
    requires Consistent(before) && Inserted(before, after, a, r)
    ensures Consistent(after)
  {
    if Validate(a) == Pass && a.articleId.None? {
      FreshKeepsConsistent(before, after, a, r);
    }
  }

  /** save keeps the store consistent. */
  lemma SaveKeepsConsistent(before: Records, after: Records, a: Article, r: Result<Article, Error>)
    requires Consistent(before) && Saved(before, after, a, r)
    ensures Consistent(after)
  {
    if Validate(a) == Pass && a.articleId.None? {
      FreshKeepsConsistent(before, after, a, r);
    }
  }

  /** insert succeeds exactly for a valid article whose id is unset or not yet stored. */
  lemma InsertSucceedsIff(before: Records, after: Records, a: Article, r: Result<Article, Error>)
    requires Inserted(before, after, a, r)
    ensures r.Success? <==> Articles.Valid(a) && (a.articleId.None? || a.articleId.value !in before)
  {
  }

  /** A successful insert returns the article with an id set and every other field as
      given; that id was free before, findById now yields the returned article, and the
      count has grown by one. */
  lemma InsertRoundTrip(before: Records, after: Records, a: Article, x: Article)
    requires Inserted(before, after, a, Success(x))
    ensures x.articleId.Some? && x.articleId.value !in before
    ensures x == a.(articleId := x.articleId)
    ensures x.articleId.value in after && after[x.articleId.value] == x
    ensures |after| == |before| + 1
  {
    var id := x.articleId.value;
    assert after == before[id := x];
    assert after.Keys == before.Keys + {id};
  }

  /** After a successful save, findById on the saved id yields the saved article; an
      article that already had an id comes back unchanged. */
  lemma SaveThenFind(before: Records, after: Records, a: Article, x: Article)
    requires Saved(before, after, a, Success(x))
    ensures x.articleId.Some? && x.articleId.value in after && after[x.articleId.value] == x
    ensures a.articleId.Some? ==> x == a
    ensures x == a.(articleId := x.articleId)
  {
  }

  /** A save of an article without authors, otherwise valid, fails with exactly
      "authors: At least one author must be set." and stores nothing. */
  lemma SaveWithoutAuthorsRefused(before: Records, after: Records, a: Article, r: Result<Article, Error>)
    requires a.authors.None?
    requires NotBlank(a.header) && NotBlank(a.shortDescription) && NotBlank(a.text)
    requires a.publishDate.Some? && NotEmpty(a.keywords)
    requires Saved(before, after, a, r)
    ensures r == Failure(ValidationError("authors: At least one author must be set."))
    ensures after == before && |after| == |before|
  {
    MissingAuthorsRejected(a);
  }

  /** deleteById of a stored id removes exactly that document: the count drops by one. */
  lemma DeleteByIdCount(m: Records, id: string)
    requires id in m
    ensures id !in m - {id}
    ensures |m - {id}| == |m| - 1
  {
    assert (m - {id}).Keys == m.Keys - {id};
  }

  // ---------------------------------------------------------------------------
  // Fresh ids

  /** An upper bound on the lengths of the strings in `keys`. */
  ghost function MaxLength(keys: set<string>): (n: nat)
    ensures forall k :: k in keys ==> |k| <= n
    decreases |keys|
  {
    if keys == {} then 0
    else
      var k :| k in keys;
      var rest := MaxLength(keys - {k});
      if |k| > rest then |k| else rest
  }

  /** However many documents are stored, some id is still free. */
  lemma FreshIdExists(keys: set<string>)
    ensures exists id :: id !in keys
  {
    var id := seq(MaxLength(keys) + 1, _ => 'x');
    assert id !in keys;
  }

  // ---------------------------------------------------------------------------
  // The repository object

  class ArticleStore {
    /** The documents held by the store, keyed by id. */
    var articles: Records

    ghost predicate Valid()
      reads this
    {
      Consistent(articles)
    }

    /** An empty store. */
    constructor ()
      ensures Valid() && articles == map[]
    {
      articles := map[];
    }

    /** count(): the number of stored documents. */
    function Count(): (r: nat)
      reads this
      ensures r == |articles.Keys|
      ensures r == 0 <==> articles == map[]
    {
      |articles|
    }

    /** findById: the document filed under `id`, if any. */
    function FindById(id: string): (r: Option<Article>)
      reads this
      ensures r.Some? <==> id in articles
      ensures r.Some? ==> r.value == articles[id]
      ensures Valid() && r.Some? ==> r.value.articleId == Some(id) && Articles.Valid(r.value)
    {
      if id in articles then Some(articles[id]) else None
    }

    /** findByAuthors: the documents listing `author`. */
    function FindByAuthors(author: string): (r: Records)
      reads this
      ensures forall k :: k in r <==> k in articles && HasAuthor(articles[k], author)
      ensures forall k :: k in r ==> r[k] == articles[k]
    {
      ByAuthor(articles, author)
    }

    /** findByKeywords: the documents listing `keyword`. */
    function FindByKeywords(keyword: string): (r: Records)
      reads this
      ensures forall k :: k in r <==> k in articles && HasKeyword(articles[k], keyword)
      ensures forall k :: k in r ==> r[k] == articles[k]
    {
      ByKeyword(articles, keyword)
    }

    /** findByPublishDateBetween: the documents published in [from, to). */
    function FindByPublishDateBetween(from: Millis, to: Millis): (r: Records)
      reads this
      ensures forall k :: k in r <==> k in articles && PublishedIn(articles[k], from, to)
      ensures forall k :: k in r ==> r[k] == articles[k]
    {
      ByPublishDate(articles, from, to)
    }

    /** Files the validated article `a`, which has no id, under a newly generated one. */
    method StoreNew(a: Article) returns (r: Result<Article, Error>)
      requires Valid() && Validate(a) == Pass
      modifies this
      ensures Valid()
      ensures StoredUnderFreshId(old(articles), articles, a, r)
    {
      FreshIdExists(articles.Keys);
      var id :| id !in articles;
      var stored := a.(articleId := Some(id));
      articles := articles[id := stored];
      r := Success(stored);
      FreshKeepsConsistent(old(articles), articles, a, r);
    }

    /** insert(article). */
    method Insert(a: Article) returns (r: Result<Article, Error>)
      requires Valid()
      modifies this
      ensures Valid()
      ensures Inserted(old(articles), articles, a, r)
    {
      var check := Validate(a);
      if check.Fail? {
        return Failure(ValidationError(check.error));
      }
      match a.articleId
      case None =>
        r := StoreNew(a);
      case Some(id) =>
        if id in articles {
          r := Failure(DuplicateKey(id));
        } else {
          articles := articles[id := a];
          r := Success(a);
        }
    }

    /** save(article). */
    method Save(a: Article) returns (r: Result<Article, Error>)
      requires Valid()
      modifies this
      ensures Valid()
      ensures Saved(old(articles), articles, a, r)
    {
      var check := Validate(a);
      if check.Fail? {
        return Failure(ValidationError(check.error));
      }
      match a.articleId
      case None =>
        r := StoreNew(a);
      case Some(id) =>
        articles := articles[id := a];
        r := Success(a);
    }

    /** deleteById(id): removes the document filed under `id`; nothing happens when there is none. */
    method DeleteById(id: string)
      requires Valid()
      modifies this
      ensures Valid()
      ensures articles == old(articles) - {id}
    {
      articles := articles - {id};
    }

    /** delete(entity): deletes by the entity's id, which the store insists is set. */
    method Delete(entity: Article)
      requires Valid() && entity.articleId.Some?
      modifies this
      ensures Valid()
      ensures articles == old(articles) - {entity.articleId.value}
    {
      DeleteById(entity.articleId.value);
    }
  }
}

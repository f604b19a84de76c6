/** The article service: existence checks around the repository's writes, and
    pass-through queries. Each call is taken to be atomic. */
module Service {
  import opened Wrappers
  import opened Articles
  import opened Errors
  import opened Store

  /** What findById answers on the documents `m`: the stored article, or not-found. */
  function Lookup(m: Records, id: string): (r: Result<Article, Error>)
    ensures r.Success? <==> id in m
    ensures r.Success? ==> r.value == m[id]
    ensures r.Failure? ==> r.error == NotFound(id)
  {
    if id in m then Success(m[id]) else Failure(NotFound(id))
  }

  /** update: an article without an id is refused by the store's lookup; one whose id
      is not stored fails with not-found and changes nothing; otherwise it is saved. */
  ghost predicate Updated(before: Records, after: Records, a: Article, r: Result<Article, Error>) {
    match a.articleId
    case None => r == Failure(MissingId) && after == before
    case Some(id) =>
      if id in before then Saved(before, after, a, r)
      else r == Failure(NotFound(id)) && after == before
  }

  /** delete: a stored article is removed and the copy read before the removal is
      returned; an unknown id fails with not-found and changes nothing. */
  ghost predicate Deleted(before: Records, after: Records, id: string, r: Result<Article, Error>) {
    if id in before then r == Success(before[id]) && after == before - {id}
    else r == Failure(NotFound(id)) && after == before
  }

  /** The documents filed under ids other than `id` are the same in `before` and `after`. */
  ghost predicate OthersUnchanged(before: Records, after: Records, id: string) {
    forall k :: k != id ==> (k in before <==> k in after) && (k in before ==> before[k] == after[k])
  }

  /** Creating a valid article with no id yields it under a new id, and reading that
      id back yields the same article. */
  lemma CreateThenFind(before: Records, after: Records, a: Article, r: Result<Article, Error>)
    requires Inserted(before, after, a, r)
    requires Articles.Valid(a) && a.articleId.None?
    ensures r.Success? && r.value.articleId.Some?
    ensures r.value == a.(articleId := r.value.articleId)
    ensures Lookup(after, r.value.articleId.value) == r
  {
    InsertRoundTrip(before, after, a, r.value);
  }

  /** A successful update replaced the stored record under the article's id by the
      given article and returned it; the count is unchanged and reading it back yields it. */
  lemma UpdateReplaces(before: Records, after: Records, a: Article, x: Article)
    requires Updated(before, after, a, Success(x))
    ensures a.articleId.Some? && a.articleId.value in before
    ensures x == a && Lookup(after, a.articleId.value) == Success(a)
    ensures after == before[a.articleId.value := a]
    ensures |after| == |before|
  {
    var id := a.articleId.value;
    assert after.Keys == before.Keys;
  }

  /** update touches no record but its target. */
  lemma UpdateOnlyTarget(before: Records, after: Records, a: Article, r: Result<Article, Error>)
    requires Updated(before, after, a, r) && a.articleId.Some?
    ensures OthersUnchanged(before, after, a.articleId.value)
  {
  }

  /** Deleting a known id returns the snapshot read before removal, after which
      reading the id fails with not-found and the count has dropped by one. */
  lemma DeleteThenFind(before: Records, after: Records, id: string, x: Article)
    requires Deleted(before, after, id, Success(x))
    ensures Lookup(before, id) == Success(x)
    ensures Lookup(after, id) == Failure(NotFound(id))
    ensures |after| == |before| - 1
    ensures OthersUnchanged(before, after, id)
  {
    DeleteByIdCount(before, id);
  }

  /** update succeeds exactly when its target is stored and the article passes the
      validation in the save. */
  lemma UpdateSucceedsIff(before: Records, after: Records, a: Article, r: Result<Article, Error>)
    requires Updated(before, after, a, r)
    ensures r.Success? <==> a.articleId.Some? && a.articleId.value in before && Articles.Valid(a)
  {
  }

  /** delete succeeds exactly when its target is stored. */
  lemma DeleteSucceedsIff(before: Records, after: Records, id: string, r: Result<Article, Error>)
    requires Deleted(before, after, id, r)
    ensures r.Success? <==> id in before
  {
  }

  class ArticleService {
    /** The repository the service delegates to. */
    const repository: ArticleStore

    ghost predicate Valid()
      reads this, repository
    {
      repository.Valid()
    }

    constructor (repository: ArticleStore)
      requires repository.Valid()
      ensures this.repository == repository && Valid()
    {
      this.repository := repository;
    }

    /** create: inserts the article; validation happens in the store's insert. */
    method Create(a: Article) returns (r: Result<Article, Error>)
      requires Valid()
      modifies repository
      ensures Valid()
      ensures Inserted(old(repository.articles), repository.articles, a, r)
    {
      r := repository.Insert(a);
    }

    /** update: looks the id up, then saves or fails with not-found. */
    method Update(a: Article) returns (r: Result<Article, Error>)
      requires Valid()
      modifies repository
      ensures Valid()
      ensures Updated(old(repository.articles), repository.articles, a, r)
    {
      match a.articleId
      case None =>
        r := Failure(MissingId);
      case Some(id) =>
        var current := repository.FindById(id);
        if current.Some? {
          r := repository.Save(a);
        } else {
          r := Failure(NotFound(id));
        }
    }

    /** delete: looks the id up, deletes the found article and returns it, or fails
        with not-found. */
    method Delete(id: string) returns (r: Result<Article, Error>)
      requires Valid()
      modifies repository
      ensures Valid()
      ensures Deleted(old(repository.articles), repository.articles, id, r)
    {
      var article := repository.FindById(id);
      if article.Some? {
        repository.Delete(article.value);
        r := Success(article.value);
      } else {
        r := Failure(NotFound(id));
      }
    }

    /** findById: the stored article, or not-found; the store is left as it is. */
    method FindById(id: string) returns (r: Result<Article, Error>)
      requires Valid()
      ensures r == Lookup(repository.articles, id)
      ensures r.Success? ==> r.value.articleId == Some(id) && Articles.Valid(r.value)
    {
      var found := repository.FindById(id);
      if found.Some? {
        r := Success(found.value);
      } else {
        r := Failure(NotFound(id));
      }
    }

    /** findByAuthor: the repository's answer, every document of which lists the author. */
    method FindByAuthor(author: string) returns (r: Records)
      ensures r == repository.FindByAuthors(author)
      ensures forall id :: id in r <==> id in repository.articles && HasAuthor(repository.articles[id], author)
    {
      r := repository.FindByAuthors(author);
    }

    /** findByPublishDateBetween: the repository's answer for [from, to). */
    method FindByPublishDateBetween(from: Millis, to: Millis) returns (r: Records)
      ensures r == repository.FindByPublishDateBetween(from, to)
      ensures forall id :: id in r <==> id in repository.articles && PublishedIn(repository.articles[id], from, to)
    {
      r := repository.FindByPublishDateBetween(from, to);
    }

    /** findByKeyword: the repository's answer, every document of which lists the keyword. */
    method FindByKeyword(keyword: string) returns (r: Records)
      ensures r == repository.FindByKeywords(keyword)
      ensures forall id :: id in r <==> id in repository.articles && HasKeyword(repository.articles[id], keyword)
    {
      r := repository.FindByKeywords(keyword);
    }
  }
}

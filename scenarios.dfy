/** The repository's finder scenarios worked on concrete documents: three dummy
    articles with overlapping author and keyword lists, and four articles published on
    consecutive days. Dates are UTC midnights in epoch milliseconds. */
module Scenarios {
  import opened Wrappers
  import opened Articles
  import opened Store

  /** A dummy article filed under `id` with the given authors, keywords and publish date. */
  function Dummy(id: string, authors: seq<string>, keywords: seq<string>, date: Millis): Article {
    Article(Some(id), Some("Header"), Some("A short description"), Some("The main text"),
            Some(date), Some(authors), Some(keywords))
  }

  const Dec24: Millis := 1545609600000
  const Jan1: Millis := 1546300800000
  const Jan2: Millis := 1546387200000
  const Jan3: Millis := 1546473600000
  const Jan4: Millis := 1546560000000

  /** Authors {1,2}, {2,3}, {5,6}: asking for "author2" finds the first two. */
  lemma AuthorScenario(m: Records)
    requires m == map[
      "1" := Dummy("1", ["author1", "author2"], ["keyword1", "keyword2"], Jan1),
      "2" := Dummy("2", ["author2", "author3"], ["keyword2", "keyword3"], Jan1),
      "5" := Dummy("5", ["author5", "author6"], ["keyword5", "keyword6"], Jan1)]
    ensures ByAuthor(m, "author2") == map["1" := m["1"], "2" := m["2"]]
    ensures |ByAuthor(m, "author2")| == 2
  {
    assert "author2" != "author5" && "author2" != "author6";
    var r := ByAuthor(m, "author2");
    assert r.Keys == {"1", "2"};
  }

  /** Keywords {5,6}, {6,7}, {9,10}: asking for "keyword6" finds the first two. */
  lemma KeywordScenario(m: Records)
    requires m == map[
      "5" := Dummy("5", ["author5", "author6"], ["keyword5", "keyword6"], Jan1),
      "6" := Dummy("6", ["author6", "author7"], ["keyword6", "keyword7"], Jan1),
      "9" := Dummy("9", ["author9", "author10"], ["keyword9", "keyword10"], Jan1)]
    ensures ByKeyword(m, "keyword6") == map["5" := m["5"], "6" := m["6"]]
    ensures |ByKeyword(m, "keyword6")| == 2
  {
    assert "keyword6"[7] != "keyword9"[7] && |"keyword6"| != |"keyword10"|;
    var r := ByKeyword(m, "keyword6");
    assert r.Keys == {"5", "6"};
  }

  /** Articles of Jan 1, 2, 3 and 4, 2019; the period from Dec 24, 2018 to Jan 3, 2019
      holds the first two: the end day itself is excluded. */
  lemma PeriodScenario(m: Records)
    requires m == map[
      "1" := Dummy("1", ["author1", "author2"], ["keyword1", "keyword2"], Jan1),
      "2" := Dummy("2", ["author2", "author3"], ["keyword2", "keyword3"], Jan2),
      "3" := Dummy("3", ["author3", "author4"], ["keyword3", "keyword4"], Jan3),
      "4" := Dummy("4", ["author4", "author5"], ["keyword4", "keyword5"], Jan4)]
    ensures ByPublishDate(m, Dec24, Jan3) == map["1" := m["1"], "2" := m["2"]]
    ensures |ByPublishDate(m, Dec24, Jan3)| == 2
  {
    var r := ByPublishDate(m, Dec24, Jan3);
    assert r.Keys == {"1", "2"};
  }

  /** Asking for an author no document lists gives the empty answer, not an error. */
  lemma UnknownAuthorScenario(m: Records)
    requires m == map["1" := Dummy("1", ["author1", "author2"], ["keyword1", "keyword2"], Jan1)]
    ensures ByAuthor(m, "nobody") == map[]
  {
    assert "nobody" != "author1" && "nobody" != "author2";
    QueryEmptyIffNoMatch(m, (a: Article) => HasAuthor(a, "nobody"));
  }
}

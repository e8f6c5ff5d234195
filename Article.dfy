/**
 * The article record of the news reader: five strings fixed at construction
 * and only read afterwards.
 */
module Articles {

  /**
   * One article. The destructors are the record's getters
   * (`getmTitle`, `getmSection`, `getmPubDate`, `getmWebUrl`,
   * `getmContributor`); the fields are listed in the order the record
   * declares them, which is not the order its constructor takes them in.
   * There are no setters: a datatype value never changes.
   */
  datatype Article = Article(
    title: string,
    section: string,
    pubDate: string,
    webUrl: string,
    contributor: string)

  /**
   * The record's only constructor. Its parameter order is title, section,
   * publication date, contributor, web URL; each argument is stored as it is
   * and none is checked, so empty strings are accepted.
   */
  function NewArticle(title: string, section: string, pubDate: string, contributor: string, webUrl: string): (a: Article)
    ensures a.title == title && a.section == section && a.pubDate == pubDate
    ensures a.contributor == contributor && a.webUrl == webUrl
  {
    Article(title, section, pubDate, webUrl, contributor)
  }

  /** Two constructions give the same article exactly when all five arguments agree. */
  lemma NewArticleInjective(t: string, s: string, p: string, c: string, u: string,
                            t': string, s': string, p': string, c': string, u': string)
    ensures NewArticle(t, s, p, c, u) == NewArticle(t', s', p', c', u')
            <==> t == t' && s == s' && p == p' && c == c' && u == u'
  {
  }

  /** Every article is the construction of its own five getters: nothing else is stored. */
  lemma ArticleIsItsGetters(a: Article)
    ensures a == NewArticle(a.title, a.section, a.pubDate, a.contributor, a.webUrl)
  {
  }
}

/** The articles of a file and the bytes they carry, as the NZB and the PAR2 set name them. */
module Articles {
  import opened Wrappers

  datatype ArticleSpan = ArticleSpan(messageId: string, offset: nat, len: nat)

  datatype CensusFile = CensusFile(name: string, articles: seq<ArticleSpan>)

  /** One past the last byte any article of the layout carries. */
  function LayoutSize(articles: seq<ArticleSpan>): (size: nat)
    ensures forall a :: a in articles ==> a.offset + a.len <= size
    ensures size == 0 || exists a :: a in articles && a.offset + a.len == size
  {
    if articles == [] then 0
    else Max(articles[0].offset + articles[0].len, LayoutSize(articles[1..]))
  }

  /** Articles that follow one another without gap or overlap from `start` to `end`. */
  ghost predicate Tiles(articles: seq<ArticleSpan>, start: nat, end: nat) {
    if articles == [] then start == end
    else articles[0].offset == start && Tiles(articles[1..], start + articles[0].len, end)
  }

  predicate HasByte(a: ArticleSpan, b: nat) {
    a.offset <= b < a.offset + a.len
  }

  /** Some article carries a byte of the file. */
  ghost predicate Carried(articles: seq<ArticleSpan>, b: nat) {
    exists a :: a in articles && HasByte(a, b)
  }
}

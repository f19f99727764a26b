/** The records of the note store, shaped after src/types/index.ts, and the
    JSON responses the route handlers send back. */
module Records {

  datatype Option<T> = None | Some(value: T) {
    function GetOr(default: T): T {
      if Some? then value else default
    }
  }

  /** An article is either a draft or published. */
  datatype Status = Draft | Published

  /** An article row. Canvas positions are JavaScript numbers (real here);
      timestamps are the store's clock readings. */
  datatype Article = Article(
    id: string,
    title: string,
    slug: string,
    content: string,
    contentHtml: string,
    status: Status,
    positionX: real,
    positionY: real,
    createdAt: nat,
    updatedAt: nat)

  /** A directed link from one article to another. */
  datatype ArticleLink = ArticleLink(id: string, sourceId: string, targetId: string, createdAt: nat)

  /** The JSON body of a response. */
  datatype Body =
    | Error(message: string)
    | Success
    | ArticleJson(article: Article)
    | ArticlesJson(articles: seq<Article>)
    | LinkJson(link: ArticleLink)
    | LinksJson(links: seq<ArticleLink>)
    | StatusJson(hasPassword: bool, isAuthenticated: bool)

  /** An HTTP response: status code and JSON body. */
  datatype Response = Response(status: nat, body: Body) {
    /** `res.ok` on the client side. */
    predicate Ok() {
      200 <= status < 300
    }
  }

  /** JavaScript truthiness of an optional string in a request body:
      present and not the empty string. */
  predicate Truthy(s: Option<string>) {
    s.Some? && s.value != ""
  }

  /** The set of elements of a list. */
  function Elems<T>(s: seq<T>): set<T> {
    set x | x in s
  }

  function ArticleCreatedAt(a: Article): nat {
    a.createdAt
  }

  function LinkCreatedAt(l: ArticleLink): nat {
    l.createdAt
  }
}

/** The article collection route, src/app/api/articles/route.ts: listing
    (GET) and creation with a unique slug (POST). */
module Articles {
  import opened Records
  import opened Decimal
  import opened Ordering
  import opened Session
  import opened Store

  /** Title stored when the request gives none (or an empty one). */
  const DefaultTitle := "Untitled"
  /** Text the slug is derived from when the request gives no title. */
  const DefaultSlugSource := "untitled"

  function Slugs(rows: seq<Article>): set<string> {
    set a | a in rows :: a.slug
  }

  /** findUnique({ where: { slug } }): the row with that slug, if any. */
  function FindBySlug(rows: seq<Article>, slug: string): (r: Option<Article>)
    ensures r.Some? <==> slug in Slugs(rows)
    ensures r.Some? ==> r.value in rows && r.value.slug == slug
  {
    if |rows| == 0 then None
    else if rows[0].slug == slug then Some(rows[0])
    else
      assert rows == [rows[0]] + rows[1..];
      assert Slugs(rows) == {rows[0].slug} + Slugs(rows[1..]);
      FindBySlug(rows[1..], slug)
  }

  // ---- Slug allocation ----

  /** The k-th slug the allocation loop tries: base, then base-1, base-2, ... */
  function Candidate(base: string, k: nat): (r: string)
    ensures base <= r
    ensures r == base <==> k == 0
  {
    if k == 0 then base else base + "-" + NatToString(k)
  }

  /** The loop never tries the same slug twice. */
  lemma CandidateInjective(base: string, j: nat, k: nat)
    ensures j != k ==> Candidate(base, j) != Candidate(base, k)
  {
    if j != k {
      if j == 0 || k == 0 {
        assert |Candidate(base, j)| != |Candidate(base, k)|;
      } else {
        NatToStringInjective(j, k);
        assert Candidate(base, j)[|base| + 1..] == NatToString(j);
        assert Candidate(base, k)[|base| + 1..] == NatToString(k);
      }
    }
  }

  /** The first n candidates; there are exactly n of them. */
  function CandidateSet(base: string, n: nat): (s: set<string>)
    ensures forall j :: 0 <= j < n ==> Candidate(base, j) in s
    ensures forall x :: x in s ==> exists j :: 0 <= j < n && x == Candidate(base, j)
    ensures |s| == n
  {
    if n == 0 then {}
    else
      var prev := CandidateSet(base, n - 1);
      assert Candidate(base, n - 1) !in prev by {
        forall j | 0 <= j < n - 1 ensures Candidate(base, j) != Candidate(base, n - 1) {
          CandidateInjective(base, j, n - 1);
        }
      }
      prev + {Candidate(base, n - 1)}
  }

  lemma SubsetCardinality<T>(a: set<T>, b: set<T>)
    requires a <= b
    ensures |a| <= |b|
  {
    assert b == a + (b - a);
  }

  /** s is what the allocation loop ends with when the slugs in use are
      `used`: the k-th candidate, free, with every earlier one taken. */
  ghost predicate FirstFree(base: string, used: set<string>, s: string) {
    exists k: nat :: s == Candidate(base, k) && s !in used
      && forall j :: 0 <= j < k ==> Candidate(base, j) in used
  }

  /** The allocation's outcome is determined by the slugs in use. */
  lemma FirstFreeUnique(base: string, used: set<string>, s1: string, s2: string)
    requires FirstFree(base, used, s1) && FirstFree(base, used, s2)
    ensures s1 == s2
  {
    var k1: nat :| s1 == Candidate(base, k1) && s1 !in used
      && forall j :: 0 <= j < k1 ==> Candidate(base, j) in used;
    var k2: nat :| s2 == Candidate(base, k2) && s2 !in used
      && forall j :: 0 <= j < k2 ==> Candidate(base, j) in used;
    assert !(k1 < k2) && !(k2 < k1);
  }

  /** The slug loop: tries base, base-1, base-2, ... against the table and
      stops at the first slug not in use. It terminates because the
      candidates are pairwise distinct and only finitely many slugs are in use. */
  method AllocateSlug(table: ArticleTable, base: string) returns (slug: string)
    ensures slug !in Slugs(table.rows)
    ensures FirstFree(base, Slugs(table.rows), slug)
    ensures slug == base || exists k: nat :: 1 <= k && slug == base + "-" + NatToString(k)
    ensures base !in Slugs(table.rows) ==> slug == base
  {
    ghost var used := Slugs(table.rows);
    slug := base;
    var counter: nat := 1;
    while FindBySlug(table.rows, slug).Some?
      invariant 1 <= counter
      invariant slug == Candidate(base, counter - 1)
      invariant forall j :: 0 <= j < counter - 1 ==> Candidate(base, j) in used
      invariant counter - 1 <= |used|
      decreases |used| - (counter - 1)
    {
      TakenCandidatesBound(base, used, counter);
      slug := base + "-" + NatToString(counter);
      counter := counter + 1;
    }
    ghost var k: nat := counter - 1;
    assert slug == Candidate(base, k) && slug !in used;
    assert FirstFree(base, used, slug);
    if k != 0 {
      assert slug == base + "-" + NatToString(k);
    }
  }

  /** If the first n candidates are all in use, there are at least n slugs in use. */
  lemma TakenCandidatesBound(base: string, used: set<string>, n: nat)
    requires forall j :: 0 <= j < n ==> Candidate(base, j) in used
    ensures n <= |used|
  {
    var c := CandidateSet(base, n);
    assert c <= used;
    SubsetCardinality(c, used);
  }

  // ---- POST /api/articles ----

  /** `title || "Untitled"` */
  function StoredTitle(title: Option<string>): (r: string)
    ensures r != ""
    ensures Truthy(title) ==> r == title.value
    ensures !Truthy(title) ==> r == "Untitled"
  {
    if Truthy(title) then title.value else DefaultTitle
  }

  /** `title || "untitled"`, the text handed to slugify. */
  function SlugSource(title: Option<string>): (r: string)
    ensures r != ""
    ensures Truthy(title) ==> r == title.value
    ensures !Truthy(title) ==> r == "untitled"
  {
    if Truthy(title) then title.value else DefaultSlugSource
  }

  /** POST /api/articles. Unauthenticated callers get 401 and the table is
      left alone; otherwise one new draft is appended under the first free
      slug derived from the title. */
  method Post(table: ArticleTable, cookie: Option<string>, jwtVerify: string -> bool,
              slugify: string -> string, title: Option<string>,
              positionX: Option<real>, positionY: Option<real>, now: nat)
    returns (resp: Response)
    requires table.Valid()
    modifies table
    ensures table.Valid()
    ensures !SessionVerified(cookie, jwtVerify) ==>
      resp == Response(401, Error("Unauthorized"))
      && table.rows == old(table.rows) && table.nextId == old(table.nextId)
    ensures SessionVerified(cookie, jwtVerify) ==>
      && resp.status == 201 && resp.body.ArticleJson?
      && table.rows == old(table.rows) + [resp.body.article]
    ensures SessionVerified(cookie, jwtVerify) && resp.body.ArticleJson? ==>
      var a := resp.body.article;
      && a.title == StoredTitle(title)
      && FirstFree(slugify(SlugSource(title)), Slugs(old(table.rows)), a.slug)
      && a.status == Draft
      && a.positionX == positionX.GetOr(0.0) && a.positionY == positionY.GetOr(0.0)
      && a.createdAt == now && a.updatedAt == now
      && forall i :: 0 <= i < |old(table.rows)| ==> old(table.rows)[i].id != a.id
  {
    if !SessionVerified(cookie, jwtVerify) {
      return Response(401, Error("Unauthorized"));
    }
    var baseSlug := slugify(SlugSource(title));
    var slug := AllocateSlug(table, baseSlug);
    var article := Article(RowId(table.nextId), StoredTitle(title), slug, "", "", Draft,
                           positionX.GetOr(0.0), positionY.GetOr(0.0), now, now);
    NextIdIsFresh(table.nextId);
    forall i | 0 <= i < |table.rows| ensures table.rows[i].slug != slug {
      assert table.rows[i] in table.rows;
    }
    table.rows, table.nextId := table.rows + [article], table.nextId + 1;
    resp := Response(201, ArticleJson(article));
  }

  // ---- GET /api/articles ----

  /** The published rows, in table order. */
  function PublishedOnly(rows: seq<Article>): (r: seq<Article>)
    ensures forall a :: a in r <==> a in rows && a.status == Published
    ensures multiset(r) <= multiset(rows)
  {
    if |rows| == 0 then []
    else
      assert rows == [rows[0]] + rows[1..];
      if rows[0].status == Published then [rows[0]] + PublishedOnly(rows[1..])
      else PublishedOnly(rows[1..])
  }

  /** The list GET returns: every row for an authenticated caller, only the
      published ones otherwise; newest first either way. */
  function List(rows: seq<Article>, isAuth: bool): (r: seq<Article>)
    ensures isAuth ==> multiset(r) == multiset(rows)
    ensures !isAuth ==> multiset(r) == multiset(PublishedOnly(rows))
    ensures forall a :: a in r <==> a in rows && (isAuth || a.status == Published)
    ensures NewestFirst(r, ArticleCreatedAt)
  {
    var visible := if isAuth then rows else PublishedOnly(rows);
    var r := SortNewestFirst(visible, ArticleCreatedAt);
    assert forall a :: a in r <==> a in visible by {
      forall a ensures a in r <==> a in visible {
        assert a in r <==> a in multiset(r);
        assert a in visible <==> a in multiset(visible);
      }
    }
    r
  }

  /** GET /api/articles: never an error; visibility follows the session. */
  function Get(rows: seq<Article>, cookie: Option<string>, jwtVerify: string -> bool): (resp: Response)
    ensures resp.status == 200 && resp.body.ArticlesJson?
    ensures SessionVerified(cookie, jwtVerify) ==> multiset(resp.body.articles) == multiset(rows)
    ensures !SessionVerified(cookie, jwtVerify) ==>
      forall a :: a in resp.body.articles <==> a in rows && a.status == Published
  {
    Response(200, ArticlesJson(List(rows, SessionVerified(cookie, jwtVerify))))
  }

  /** Two creations from the same base slug on a table that uses neither
      candidate yield base and then base-1. */
  lemma SequentialSlugs(base: string, used: set<string>, s1: string, s2: string)
    requires base !in used && base + "-1" !in used
    requires FirstFree(base, used, s1)
    requires FirstFree(base, used + {s1}, s2)
    ensures s1 == base && s2 == base + "-1"
  {
    assert FirstFree(base, used, Candidate(base, 0));
    FirstFreeUnique(base, used, s1, base);
    assert NatToString(1) == "1";
    assert Candidate(base, 1) == base + "-1";
    assert FirstFree(base, used + {s1}, Candidate(base, 1));
    FirstFreeUnique(base, used + {s1}, s2, base + "-1");
  }

  /** The i-th of the successive allocations s is the first free candidate
      once the slugs allocated before it are in use as well. */
  ghost predicate FreshAt(base: string, used: set<string>, s: seq<string>, i: nat)
    requires i < |s|
  {
    FirstFree(base, used + Elems(s[..i]), s[i])
  }

  /** s lists successive allocations from one base on a table whose slugs
      in use are `used`. */
  ghost predicate Allocated(base: string, used: set<string>, s: seq<string>) {
    forall i :: 0 <= i < |s| ==> FreshAt(base, used, s, i)
  }

  /** Successive creations from one base, on a table using none of the
      first n candidates, get base, base-1, base-2, ... in turn. */
  lemma SuccessiveSlugs(base: string, used: set<string>, s: seq<string>)
    requires forall j :: 0 <= j < |s| ==> Candidate(base, j) !in used
    requires Allocated(base, used, s)
    ensures forall i :: 0 <= i < |s| ==> s[i] == Candidate(base, i)
  {
    forall i | 0 <= i < |s| ensures s[i] == Candidate(base, i) {
      SlugAt(base, used, s, i);
    }
  }

  /** The i-th creation of the run gets the i-th candidate, by strong
      induction on i. */
  lemma {:induction false} SlugAt(base: string, used: set<string>, s: seq<string>, i: nat)
    requires forall j :: 0 <= j < |s| ==> Candidate(base, j) !in used
    requires Allocated(base, used, s)
    requires i < |s|
    ensures s[i] == Candidate(base, i)
    decreases i
  {
    forall j | 0 <= j < i ensures s[j] == Candidate(base, j) {
      SlugAt(base, used, s, j);
    }
    LastAllocation(base, used, s, i);
  }

  /** After allocations that gave the first i candidates, the next
      allocation gives the i-th. */
  lemma LastAllocation(base: string, used: set<string>, s: seq<string>, i: nat)
    requires i < |s| && FreshAt(base, used, s, i)
    requires Candidate(base, i) !in used
    requires forall j :: 0 <= j < i ==> s[j] == Candidate(base, j)
    ensures s[i] == Candidate(base, i)
  {
    var p := s[..i];
    forall j | 0 <= j < |p| ensures p[j] == Candidate(base, j) {
      assert p[j] == s[j];
    }
    NextCandidateFree(base, used, p);
    FirstFreeUnique(base, used + Elems(p), s[i], Candidate(base, i));
  }

  /** Once the first n candidates are in use, and the n-th is not yet, the
      n-th is the first free one. */
  lemma NextCandidateFree(base: string, used: set<string>, p: seq<string>)
    requires Candidate(base, |p|) !in used
    requires forall j :: 0 <= j < |p| ==> p[j] == Candidate(base, j)
    ensures FirstFree(base, used + Elems(p), Candidate(base, |p|))
  {
    var n := |p|;
    forall j | 0 <= j < n ensures Candidate(base, j) in used + Elems(p) {
      assert p[j] in Elems(p);
    }
    forall j | 0 <= j < n ensures p[j] != Candidate(base, n) {
      CandidateInjective(base, j, n);
    }
    assert Candidate(base, n) !in Elems(p);
  }
}

/** The relational store: the article, link and settings tables, held in
    memory. Each table is a class whose rows the route handlers replace. */
module Store {
  import opened Records
  import opened Decimal

  /** The identifier the store gives the k-th row it creates in a table
      (a counter stands in for the schema's generated ids). */
  function RowId(k: nat): (id: string)
    ensures id != ""
  {
    "c" + NatToString(k)
  }

  lemma RowIdInjective(a: nat, b: nat)
    ensures a != b ==> RowId(a) != RowId(b)
  {
    assert RowId(a)[1..] == NatToString(a);
    assert RowId(b)[1..] == NatToString(b);
    NatToStringInjective(a, b);
  }

  /** The identifier a table issues next differs from every later one. */
  lemma NextIdIsFresh(nextId: nat)
    ensures forall k :: nextId + 1 <= k ==> RowId(nextId) != RowId(k)
  {
    forall k | nextId + 1 <= k ensures RowId(nextId) != RowId(k) {
      RowIdInjective(nextId, k);
    }
  }

  // ---- Articles ----

  /** Slugs and ids are unique, and no row uses an id the table has yet to issue. */
  ghost predicate ArticlesValid(rows: seq<Article>, nextId: nat) {
    && (forall i, j :: 0 <= i < j < |rows| ==> rows[i].slug != rows[j].slug)
    && (forall i, j :: 0 <= i < j < |rows| ==> rows[i].id != rows[j].id)
    && (forall i, k :: 0 <= i < |rows| && nextId <= k ==> rows[i].id != RowId(k))
  }

  class ArticleTable {
    var rows: seq<Article>
    var nextId: nat

    ghost predicate Valid()
      reads this
    {
      ArticlesValid(rows, nextId)
    }

    constructor ()
      ensures Valid() && rows == []
    {
      rows, nextId := [], 0;
    }
  }

  // ---- Links ----

  /** The ordered pair a link connects. */
  function Pair(l: ArticleLink): (string, string) {
    (l.sourceId, l.targetId)
  }

  /** Both ends are given, no link points at its own source, ordered pairs
      are unique, ids are unique and none is an id the table has yet to issue. */
  ghost predicate LinksValid(rows: seq<ArticleLink>, nextId: nat) {
    && (forall i :: 0 <= i < |rows| ==> rows[i].sourceId != "" && rows[i].targetId != "")
    && (forall i :: 0 <= i < |rows| ==> rows[i].sourceId != rows[i].targetId)
    && (forall i, j :: 0 <= i < j < |rows| ==> Pair(rows[i]) != Pair(rows[j]))
    && (forall i, j :: 0 <= i < j < |rows| ==> rows[i].id != rows[j].id)
    && (forall i, k :: 0 <= i < |rows| && nextId <= k ==> rows[i].id != RowId(k))
  }

  /** In a valid link table a row is determined by its id. */
  lemma SameIdSameLink(rows: seq<ArticleLink>, nextId: nat, l: ArticleLink, m: ArticleLink)
    requires LinksValid(rows, nextId)
    requires l in rows && m in rows && l.id == m.id
    ensures l == m
  {
    var i :| 0 <= i < |rows| && rows[i] == l;
    var j :| 0 <= j < |rows| && rows[j] == m;
    assert !(i < j) && !(j < i);
  }

  /** In a valid link table a row is determined by its ordered pair. */
  lemma SamePairSameLink(rows: seq<ArticleLink>, nextId: nat, l: ArticleLink, m: ArticleLink)
    requires LinksValid(rows, nextId)
    requires l in rows && m in rows && Pair(l) == Pair(m)
    ensures l == m
  {
    var i :| 0 <= i < |rows| && rows[i] == l;
    var j :| 0 <= j < |rows| && rows[j] == m;
    assert !(i < j) && !(j < i);
  }

  class LinkTable {
    var rows: seq<ArticleLink>
    var nextId: nat

    ghost predicate Valid()
      reads this
    {
      LinksValid(rows, nextId)
    }

    constructor ()
      ensures Valid() && rows == []
    {
      rows, nextId := [], 0;
    }
  }

  // ---- Settings ----

  /** The key/value settings table. */
  class SettingsTable {
    var entries: map<string, string>

    constructor ()
      ensures entries == map[]
    {
      entries := map[];
    }
  }
}

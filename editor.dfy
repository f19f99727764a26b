/** The reference handling of the article editor,
    src/components/ArticleEditor.tsx: which articles may be referenced, the
    reference list the user edits, and the reconciliation of the article's
    outgoing links with that list on save. */
module Editor {
  import opened Records
  import opened Ordering
  import opened Session
  import opened Store
  import opened Links

  // ---- Pure helpers of the component ----

  /** `otherArticles`: every article but the one being edited, in order. */
  function OtherArticles(all: seq<Article>, id: string): (r: seq<Article>)
    ensures forall a :: a in r <==> a in all && a.id != id
  {
    if |all| == 0 then []
    else
      assert all == [all[0]] + all[1..];
      (if all[0].id != id then [all[0]] else []) + OtherArticles(all[1..], id)
  }

  /** `String.prototype.includes`: part occurs in s at some offset. */
  predicate Includes(s: string, part: string)
    decreases |s|
  {
    part <= s || (|s| > 0 && Includes(s[1..], part))
  }

  /** `filteredArticles`: the candidates the dropdown offers: not yet
      referenced, and whose lower-cased title contains the lower-cased search. */
  function FilteredArticles(others: seq<Article>, references: seq<string>, search: string,
                            lower: string -> string): (r: seq<Article>)
    ensures forall a :: a in r <==>
      a in others && a.id !in references && Includes(lower(a.title), lower(search))
  {
    if |others| == 0 then []
    else
      assert others == [others[0]] + others[1..];
      var a := others[0];
      (if a.id !in references && Includes(lower(a.title), lower(search)) then [a] else [])
        + FilteredArticles(others[1..], references, search, lower)
  }

  /** The targets of the links whose source is `source`, in list order
      (the outgoing extraction of loadLinks). */
  function Outgoing(links: seq<ArticleLink>, source: string): (r: seq<string>)
    ensures Elems(r) == Targets(links, source)
  {
    if |links| == 0 then []
    else
      var init, last := links[..|links| - 1], links[|links| - 1];
      assert links == init + [last];
      TargetsAppend(init, last, source);
      var r := Outgoing(init, source) + (if last.sourceId == source then [last.targetId] else []);
      assert forall x :: x in r <==> x in Outgoing(init, source) || (last.sourceId == source && x == last.targetId);
      r
  }

  /** The elements of xs that are not in ys, in order: toAdd is
      Missing(references, originalRefs), toRemove is Missing(originalRefs, references). */
  function Missing(xs: seq<string>, ys: seq<string>): (r: seq<string>)
    ensures forall x :: x in r <==> x in xs && x !in ys
  {
    if |xs| == 0 then []
    else
      assert xs == [xs[0]] + xs[1..];
      (if xs[0] !in ys then [xs[0]] else []) + Missing(xs[1..], ys)
  }

  /** removeReference's filter: every occurrence of x dropped. */
  function Without(s: seq<string>, x: string): (r: seq<string>)
    ensures forall y :: y in r <==> y in s && y != x
    ensures |r| <= |s|
  {
    if |s| == 0 then []
    else
      assert s == [s[0]] + s[1..];
      (if s[0] != x then [s[0]] else []) + Without(s[1..], x)
  }

  /** Without keeps the remaining ids in their order: it distributes over
      concatenation and keeps or drops each single id. */
  lemma {:induction false} WithoutKeepsOrder(a: seq<string>, b: seq<string>, x: string)
    ensures Without(a + b, x) == Without(a, x) + Without(b, x)
    ensures |a| == 1 ==> Without(a, x) == if a[0] == x then [] else a
  {
    if |a| > 0 {
      assert (a + b)[1..] == a[1..] + b;
      WithoutKeepsOrder(a[1..], b, x);
      if |a| == 1 {
        assert a[1..] == [];
      }
    } else {
      assert a + b == b;
    }
  }

  predicate NoDup(s: seq<string>) {
    forall i, j :: 0 <= i < j < |s| ==> s[i] != s[j]
  }

  /** The status button: draft and published swap. */
  function Toggle(s: Status): (r: Status)
    ensures r != s
  {
    if s == Draft then Published else Draft
  }

  lemma ToggleTwice(s: Status)
    ensures Toggle(Toggle(s)) == s
  {
  }

  /** The position of the first article with that id at or after `from`. */
  function FirstIndexOf(all: seq<Article>, id: string, from: nat): (r: Option<nat>)
    requires from <= |all|
    requires forall j :: 0 <= j < from ==> all[j].id != id
    ensures r.Some? ==> && from <= r.value < |all| && all[r.value].id == id
                        && (forall j :: 0 <= j < r.value ==> all[j].id != id)
    ensures r.None? ==> forall j :: 0 <= j < |all| ==> all[j].id != id
    decreases |all| - from
  {
    if from == |all| then None
    else if all[from].id == id then Some(from)
    else FirstIndexOf(all, id, from + 1)
  }

  /** `allArticles.find(art => art.id === id)`: the first article with that id. */
  function FindArticle(all: seq<Article>, id: string): (r: Option<Article>)
    ensures r.None? <==> forall a :: a in all ==> a.id != id
    ensures r.Some? ==>
      exists i :: 0 <= i < |all| && all[i] == r.value && all[i].id == id && (forall j :: 0 <= j < i ==> all[j].id != id)
  {
    match FirstIndexOf(all, id, 0)
    case Some(i) => Some(all[i])
    case None => None
  }

  /** getArticleTitle: the pill label; never empty, "Unknown" for an id
      that names no article or an article without a title. */
  function ArticleTitle(all: seq<Article>, id: string): (r: string)
    ensures r != ""
    ensures (forall a :: a in all ==> a.id != id) ==> r == "Unknown"
    ensures FindArticle(all, id).Some? && FindArticle(all, id).value.title != "" ==>
      r == FindArticle(all, id).value.title
    ensures FindArticle(all, id).Some? && FindArticle(all, id).value.title == "" ==> r == "Unknown"
    ensures r != "Unknown" ==> exists a :: a in all && a.id == id && a.title == r
  {
    match FindArticle(all, id)
    case Some(a) => if a.title != "" then a.title else "Unknown"
    case None => "Unknown"
  }

  // ---- Facts about the reference lists ----

  /** Adding an id the dropdown offers keeps the references free of the
      article itself and of repeats. */
  lemma AddFromDropdownKeepsClean(all: seq<Article>, self: string, references: seq<string>,
                                  search: string, lower: string -> string, k: nat)
    requires NoDup(references) && self !in references
    requires k < |FilteredArticles(OtherArticles(all, self), references, search, lower)|
    ensures var id := FilteredArticles(OtherArticles(all, self), references, search, lower)[k].id;
      NoDup(references + [id]) && self !in references + [id]
  {
    var f := FilteredArticles(OtherArticles(all, self), references, search, lower);
    assert f[k] in f;
    var r := references + [f[k].id];
    assert forall i :: 0 <= i < |references| ==> r[i] == references[i];
  }

  /** Removing an id keeps the references free of the article itself and of repeats. */
  lemma {:induction false} WithoutKeepsClean(s: seq<string>, self: string, x: string)
    requires NoDup(s) && self !in s
    ensures NoDup(Without(s, x)) && self !in Without(s, x)
  {
    if |s| > 0 {
      NoDupTail(s);
      WithoutKeepsClean(s[1..], self, x);
      if s[0] != x {
        NoDupCons(s[0], Without(s[1..], x));
      }
    }
  }

  lemma NoDupTail(s: seq<string>)
    requires |s| > 0 && NoDup(s)
    ensures NoDup(s[1..]) && s[0] !in s[1..]
  {
    forall i, j | 0 <= i < j < |s| - 1 ensures s[1..][i] != s[1..][j] {
      assert s[1..][i] == s[i + 1] && s[1..][j] == s[j + 1];
    }
    forall k | 0 <= k < |s| - 1 ensures s[1..][k] != s[0] {
      assert s[1..][k] == s[k + 1];
    }
  }

  lemma NoDupCons(x: string, s: seq<string>)
    requires NoDup(s) && x !in s
    ensures NoDup([x] + s)
  {
    var r := [x] + s;
    forall i, j | 0 <= i < j < |r| ensures r[i] != r[j] {
      assert r[j] == s[j - 1];
      if i > 0 {
        assert r[i] == s[i - 1];
      }
    }
  }

  /** The diff of save: toAdd lies in references, toRemove in originalRefs,
      and no id is in both. */
  lemma DiffShape(references: seq<string>, originalRefs: seq<string>)
    ensures Elems(Missing(references, originalRefs)) <= Elems(references)
    ensures Elems(Missing(originalRefs, references)) <= Elems(originalRefs)
    ensures Elems(Missing(references, originalRefs)) !! Elems(Missing(originalRefs, references))
  {
  }

  /** Unchanged references (as sets of ids) give nothing to create or delete. */
  lemma NoChangeNoRequests(references: seq<string>, originalRefs: seq<string>)
    requires Elems(references) == Elems(originalRefs)
    ensures Missing(references, originalRefs) == [] && Missing(originalRefs, references) == []
  {
    forall x | x in references ensures x in originalRefs {
      assert x in Elems(references);
    }
    forall x | x in originalRefs ensures x in references {
      assert x in Elems(originalRefs);
    }
    MissingEmpty(references, originalRefs);
    MissingEmpty(originalRefs, references);
  }

  lemma {:induction false} MissingEmpty(xs: seq<string>, ys: seq<string>)
    requires forall x :: x in xs ==> x in ys
    ensures Missing(xs, ys) == []
  {
    if |xs| > 0 {
      assert xs[0] in xs;
      assert forall x :: x in xs[1..] ==> x in xs;
      MissingEmpty(xs[1..], ys);
    }
  }

  /** The outgoing references of a freshly loaded link list are exactly the
      article's targets, without repeats and without the article itself. */
  lemma LoadedReferences(rows: seq<ArticleLink>, nextId: nat, self: string)
    requires LinksValid(rows, nextId)
    ensures var r := Outgoing(SortNewestFirst(rows, LinkCreatedAt), self);
      && Elems(r) == Targets(rows, self)
      && NoDup(r) && self !in r
  {
    var snapshot := SortNewestFirst(rows, LinkCreatedAt);
    SameMembersSameTargets(snapshot, rows, self);
    SortKeepsDistinct(rows, LinkCreatedAt, Pair);
    OutgoingNoDup(snapshot, self);
    ValidTargets(rows, nextId, self);
  }

  /** Two permutations of a link list have the same targets. */
  lemma SameMembersSameTargets(a: seq<ArticleLink>, b: seq<ArticleLink>, source: string)
    requires multiset(a) == multiset(b)
    ensures Targets(a, source) == Targets(b, source)
  {
    forall l ensures l in a <==> l in b {
      assert l in a <==> l in multiset(a);
      assert l in b <==> l in multiset(b);
    }
  }

  lemma {:induction false} OutgoingNoDup(links: seq<ArticleLink>, source: string)
    requires DistinctBy(links, Pair)
    ensures NoDup(Outgoing(links, source))
  {
    if |links| > 0 {
      var n := |links| - 1;
      var init, last := links[..n], links[n];
      assert links == init + [last];
      assert DistinctBy(init, Pair) by {
        forall i, j | 0 <= i < j < |init| ensures Pair(init[i]) != Pair(init[j]) {
          assert init[i] == links[i] && init[j] == links[j];
        }
      }
      OutgoingNoDup(init, source);
      var rest := Outgoing(init, source);
      if last.sourceId == source {
        forall m | m in init && m.sourceId == source ensures m.targetId != last.targetId {
          var i :| 0 <= i < n && init[i] == m;
          assert Pair(links[i]) != Pair(links[n]);
        }
        assert last.targetId !in Elems(rest);
        var r := rest + [last.targetId];
        forall i, j | 0 <= i < j < |r| ensures r[i] != r[j] {
          if j < |rest| {
            assert r[i] == rest[i] && r[j] == rest[j];
          } else {
            assert r[i] in Elems(rest);
          }
        }
      }
    }
  }

  // ---- Reconciliation against the link table ----

  /** The targets a create for `source` can add: the admissible ones. */
  function Addable(source: string, toAdd: seq<string>): set<string> {
    set t | t in toAdd && Admissible(source, t)
  }

  lemma AddableStep(source: string, toAdd: seq<string>, i: nat)
    requires i < |toAdd|
    ensures Addable(source, toAdd[..i + 1])
         == Addable(source, toAdd[..i]) + (if Admissible(source, toAdd[i]) then {toAdd[i]} else {})
  {
    assert toAdd[..i + 1] == toAdd[..i] + [toAdd[i]];
  }

  /** What the create loop has achieved once the ids in `done` were posted. */
  ghost predicate Created(rows0: seq<ArticleLink>, rows: seq<ArticleLink>, source: string,
                          done: seq<string>, authed: bool) {
    && (!authed ==> rows == rows0)
    && (authed ==> Targets(rows, source) == Targets(rows0, source) + Addable(source, done))
    && FromOthers(rows, source) == FromOthers(rows0, source)
    && (forall l :: l in rows0 ==> l in rows)
    && (forall l :: l in rows && l !in rows0 ==> l.sourceId == source && l.targetId in done)
  }

  /** One create request: the table after POST for target t, as the route
      leaves it, extends the progress of the loop by t. */
  lemma CreateStep(rows0: seq<ArticleLink>, before: seq<ArticleLink>, nextId: nat, after: seq<ArticleLink>,
                   source: string, done: seq<string>, t: string, now: nat, authed: bool)
    requires Created(rows0, before, source, done, authed)
    requires var g := Guard(before, authed, Some(source), Some(t));
      && (g.Some? ==> after == before)
      && (g.None? ==> after == before + [ArticleLink(RowId(nextId), source, t, now)])
    ensures Created(rows0, after, source, done + [t], authed)
  {
    GuardAdmits(before, authed, Some(source), Some(t));
    assert Addable(source, done + [t]) == Addable(source, done) + (if Admissible(source, t) then {t} else {});
    if Guard(before, authed, Some(source), Some(t)).None? {
      var l := ArticleLink(RowId(nextId), source, t, now);
      TargetsAppend(before, l, source);
      FromOthersConcat(before, [l], source);
      assert FromOthers([l], source) == [];
    }
  }

  /** The create loop of syncReferences: one POST per id of toAdd, each
      response ignored. Only links from `source` are added, and every
      admissible id of toAdd ends up a target of `source`. */
  method CreateLinks(links: LinkTable, cookie: Option<string>, jwtVerify: string -> bool,
                     source: string, toAdd: seq<string>, now: nat)
    requires links.Valid()
    modifies links
    ensures links.Valid()
    ensures !SessionVerified(cookie, jwtVerify) ==> links.rows == old(links.rows)
    ensures SessionVerified(cookie, jwtVerify) ==>
      Targets(links.rows, source) == Targets(old(links.rows), source) + Addable(source, toAdd)
    ensures FromOthers(links.rows, source) == FromOthers(old(links.rows), source)
    ensures forall l :: l in old(links.rows) ==> l in links.rows
    ensures forall l :: l in links.rows && l !in old(links.rows) ==>
      l.sourceId == source && l.targetId in toAdd
  {
    ghost var rows0 := links.rows;
    ghost var authed := SessionVerified(cookie, jwtVerify);
    for i := 0 to |toAdd|
      invariant links.Valid()
      invariant Created(rows0, links.rows, source, toAdd[..i], authed)
    {
      CreateOne(links, cookie, jwtVerify, source, toAdd[i], now, rows0, toAdd[..i]);
      assert toAdd[..i + 1] == toAdd[..i] + [toAdd[i]];
    }
    assert toAdd[..|toAdd|] == toAdd;
  }

  /** The body of the create loop, for one target: POST the link. */
  method CreateOne(links: LinkTable, cookie: Option<string>, jwtVerify: string -> bool,
                   source: string, target: string, now: nat,
                   ghost rows0: seq<ArticleLink>, ghost done: seq<string>)
    requires links.Valid()
    requires Created(rows0, links.rows, source, done, SessionVerified(cookie, jwtVerify))
    modifies links
    ensures links.Valid()
    ensures Created(rows0, links.rows, source, done + [target], SessionVerified(cookie, jwtVerify))
  {
    ghost var before := links.rows;
    ghost var n := links.nextId;
    var resp := Post(links, cookie, jwtVerify, Some(source), Some(target), now);
    CreateStep(rows0, before, n, links.rows, source, done, target, now, SessionVerified(cookie, jwtVerify));
  }

  /** `links.find(l => l.sourceId === source && l.targetId === target)`. */
  function FindLink(links: seq<ArticleLink>, source: string, target: string): (r: Option<ArticleLink>)
    ensures r.Some? ==> r.value in links && r.value.sourceId == source && r.value.targetId == target
    ensures r.None? ==> forall l :: l in links ==> !(l.sourceId == source && l.targetId == target)
  {
    if |links| == 0 then None
    else if links[0].sourceId == source && links[0].targetId == target then Some(links[0])
    else
      assert links == [links[0]] + links[1..];
      FindLink(links[1..], source, target)
  }

  /** What the delete loop has achieved once the ids in `done` were handled. */
  ghost predicate Removed(rows1: seq<ArticleLink>, rows: seq<ArticleLink>, source: string, done: seq<string>) {
    && (forall l :: l in rows ==> l in rows1)
    && Targets(rows, source) == Targets(rows1, source) - Elems(done)
    && FromOthers(rows, source) == FromOthers(rows1, source)
    && (forall l :: l in rows1 && l !in rows ==> l.sourceId == source && l.targetId in done)
  }

  /** A link of the fetched list is still the table's row with its id, or
      its target is no longer a target of the source. */
  lemma StillThere(rows1: seq<ArticleLink>, n1: nat, current: seq<ArticleLink>,
                   l: ArticleLink, source: string, target: string)
    requires LinksValid(rows1, n1)
    requires forall m :: m in current ==> m in rows1
    requires l in rows1 && l.sourceId == source && l.targetId == target
    ensures FindIndexById(current, l.id).None? ==> target !in Targets(current, source)
    ensures FindIndexById(current, l.id).Some? ==> current[FindIndexById(current, l.id).value] == l
  {
    forall m | m in current && m.sourceId == source && m.targetId == target ensures m == l {
      SamePairSameLink(rows1, n1, m, l);
    }
    var found := FindIndexById(current, l.id);
    if found.Some? {
      assert current[found.value] in current;
      SameIdSameLink(rows1, n1, current[found.value], l);
    }
  }

  /** One step of the delete loop: look the pair up in the fetched list and,
      if it is there, DELETE it by id. */
  lemma DeleteStep(rows1: seq<ArticleLink>, n1: nat, snapshot: seq<ArticleLink>,
                   before: seq<ArticleLink>, n: nat, after: seq<ArticleLink>,
                   source: string, done: seq<string>, t: string)
    requires LinksValid(rows1, n1) && LinksValid(before, n)
    requires Removed(rows1, before, source, done)
    requires forall l :: l in snapshot <==> l in rows1
    requires var link := FindLink(snapshot, source, t);
      && (link.None? ==> after == before)
      && (link.Some? ==>
            var f := FindIndexById(before, link.value.id);
            && (f.None? ==> after == before)
            && (f.Some? ==> after == before[..f.value] + before[f.value + 1..]))
    ensures Removed(rows1, after, source, done + [t])
  {
    var link := FindLink(snapshot, source, t);
    if link.None? {
      assert t !in Targets(rows1, source);
      AlreadyGone(rows1, before, source, done, t);
    } else {
      StillThere(rows1, n1, before, link.value, source, t);
      var f := FindIndexById(before, link.value.id);
      if f.Some? {
        RemovedOne(rows1, before, n, f.value, source, done, t);
      } else {
        AlreadyGone(rows1, before, source, done, t);
      }
    }
  }

  /** A target that is no longer there: the table stays as it is. */
  lemma AlreadyGone(rows1: seq<ArticleLink>, before: seq<ArticleLink>, source: string, done: seq<string>, t: string)
    requires Removed(rows1, before, source, done)
    requires t !in Targets(before, source)
    ensures Removed(rows1, before, source, done + [t])
  {
    assert Elems(done + [t]) == Elems(done) + {t};
  }

  /** The link from the source to t is row k: deleting it removes t. */
  lemma RemovedOne(rows1: seq<ArticleLink>, before: seq<ArticleLink>, n: nat, k: nat,
                   source: string, done: seq<string>, t: string)
    requires LinksValid(before, n) && k < |before|
    requires Removed(rows1, before, source, done)
    requires before[k].sourceId == source && before[k].targetId == t
    ensures Removed(rows1, before[..k] + before[k + 1..], source, done + [t])
  {
    assert Elems(done + [t]) == Elems(done) + {t};
    RemovalTargets(before, n, k, source);
    RemovalFromOthers(before, k, source);
    RemovalMembers(before, n, k);
  }

  /** The delete loop of syncReferences: fetch the links once, then for
      each id of toRemove delete the link from `source` to it, if the
      fetched list has one. Only links from `source` to ids of toRemove go. */
  method DeleteLinks(links: LinkTable, cookie: Option<string>, jwtVerify: string -> bool,
                     source: string, toRemove: seq<string>)
    requires links.Valid()
    modifies links
    ensures links.Valid()
    ensures !SessionVerified(cookie, jwtVerify) ==> links.rows == old(links.rows)
    ensures SessionVerified(cookie, jwtVerify) ==>
      Targets(links.rows, source) == Targets(old(links.rows), source) - Elems(toRemove)
    ensures FromOthers(links.rows, source) == FromOthers(old(links.rows), source)
    ensures forall l :: l in links.rows ==> l in old(links.rows)
    ensures forall l :: l in old(links.rows) && l !in links.rows ==>
      l.sourceId == source && l.targetId in toRemove
  {
    if |toRemove| == 0 {
      return;
    }
    var res := Get(links.rows, cookie, jwtVerify);
    if !res.Ok() {
      return;
    }
    assert SessionVerified(cookie, jwtVerify);
    var snapshot := res.body.links;
    forall l ensures l in snapshot <==> l in links.rows {
      assert l in snapshot <==> l in multiset(snapshot);
      assert l in links.rows <==> l in multiset(links.rows);
    }
    DeleteFetched(links, cookie, jwtVerify, source, toRemove, snapshot);
  }

  /** The loop of DeleteLinks, over the fetched list `snapshot`. */
  method DeleteFetched(links: LinkTable, cookie: Option<string>, jwtVerify: string -> bool,
                       source: string, toRemove: seq<string>, snapshot: seq<ArticleLink>)
    requires links.Valid() && SessionVerified(cookie, jwtVerify)
    requires forall l :: l in snapshot <==> l in links.rows
    modifies links
    ensures links.Valid()
    ensures Removed(old(links.rows), links.rows, source, toRemove)
  {
    ghost var rows1 := links.rows;
    ghost var n1 := links.nextId;
    for i := 0 to |toRemove|
      invariant links.Valid()
      invariant Removed(rows1, links.rows, source, toRemove[..i])
    {
      DeleteOne(links, cookie, jwtVerify, source, toRemove[i], snapshot, rows1, n1, toRemove[..i]);
      assert toRemove[..i + 1] == toRemove[..i] + [toRemove[i]];
    }
    assert toRemove[..|toRemove|] == toRemove;
  }

  /** The body of the delete loop, for one target: find the link in the
      fetched list and, if there is one, DELETE it by id. */
  method DeleteOne(links: LinkTable, cookie: Option<string>, jwtVerify: string -> bool,
                   source: string, target: string, snapshot: seq<ArticleLink>,
                   ghost rows1: seq<ArticleLink>, ghost n1: nat, ghost done: seq<string>)
    requires links.Valid() && SessionVerified(cookie, jwtVerify)
    requires LinksValid(rows1, n1) && (forall l :: l in snapshot <==> l in rows1)
    requires Removed(rows1, links.rows, source, done)
    modifies links
    ensures links.Valid()
    ensures Removed(rows1, links.rows, source, done + [target])
  {
    ghost var before := links.rows;
    var link := FindLink(snapshot, source, target);
    if link.Some? {
      var resp := Delete(links, cookie, jwtVerify, link.value.id);
    }
    DeleteStep(rows1, n1, snapshot, before, links.nextId, links.rows, source, done, target);
  }

  /** The reconciliation theorem on sets: starting from targets equal to
      the original references, adding toAdd and taking away toRemove leaves
      exactly the current references (less the ids a link cannot point to). */
  lemma Reconcile(originalRefs: seq<string>, references: seq<string>, source: string)
    requires source != "" && "" !in originalRefs && source !in originalRefs
    ensures (Elems(originalRefs) + Addable(source, Missing(references, originalRefs)))
              - Elems(Missing(originalRefs, references))
         == Elems(references) - {"", source}
  {
    var lhs := (Elems(originalRefs) + Addable(source, Missing(references, originalRefs)))
              - Elems(Missing(originalRefs, references));
    forall x ensures x in lhs <==> x in Elems(references) - {"", source} {
      if x in references && x !in originalRefs && x != "" && x != source {
        assert x in Missing(references, originalRefs);
      }
    }
  }

  /** A valid table never lists the empty id or the source among its targets. */
  lemma ValidTargets(rows: seq<ArticleLink>, nextId: nat, source: string)
    requires LinksValid(rows, nextId)
    ensures "" !in Targets(rows, source) && source !in Targets(rows, source)
  {
    forall l | l in rows ensures l.targetId != "" && l.targetId != l.sourceId {
      var i :| 0 <= i < |rows| && rows[i] == l;
    }
  }

  // ---- The component's state ----

  /** The editor modal for one article. */
  class ArticleEditor {
    const article: Article
    const allArticles: seq<Article>
    var title: string
    var status: Status
    var references: seq<string>
    var originalRefs: seq<string>
    var refSearch: string
    var showRefDropdown: bool
    var linksLoaded: bool

    constructor (article: Article, allArticles: seq<Article>)
      ensures this.article == article && this.allArticles == allArticles
      ensures title == article.title && status == article.status
      ensures references == [] && originalRefs == []
      ensures refSearch == "" && !showRefDropdown && !linksLoaded
    {
      this.article := article;
      this.allArticles := allArticles;
      title := article.title;
      status := article.status;
      references, originalRefs := [], [];
      refSearch, showRefDropdown, linksLoaded := "", false, false;
    }

    /** The references name neither the article itself nor any id twice. */
    ghost predicate RefsClean()
      reads this
    {
      NoDup(references) && article.id !in references
    }

    function Others(): seq<Article> {
      OtherArticles(allArticles, article.id)
    }

    function Filtered(lower: string -> string): seq<Article>
      reads this
    {
      FilteredArticles(Others(), references, refSearch, lower)
    }

    function ToAdd(): seq<string>
      reads this
    {
      Missing(references, originalRefs)
    }

    function ToRemove(): seq<string>
      reads this
    {
      Missing(originalRefs, references)
    }

    /** loadLinks: fetch the links; on success both lists become the
      article's outgoing targets; in every case linksLoaded ends up true. */
    method LoadLinks(links: LinkTable, cookie: Option<string>, jwtVerify: string -> bool, reachable: bool)
      requires links.Valid()
      modifies this`references, this`originalRefs, this`linksLoaded
      ensures linksLoaded
      ensures var res := Get(links.rows, cookie, jwtVerify);
        if reachable && res.Ok() then
          references == originalRefs == Outgoing(res.body.links, article.id)
        else
          references == old(references) && originalRefs == old(originalRefs)
      ensures reachable && SessionVerified(cookie, jwtVerify) ==>
        && Elems(originalRefs) == Targets(links.rows, article.id)
        && references == originalRefs
        && RefsClean()
    {
      if reachable {
        var res := Get(links.rows, cookie, jwtVerify);
        if res.Ok() {
          var outgoing := Outgoing(res.body.links, article.id);
          LoadedReferences(links.rows, links.nextId, article.id);
          references := outgoing;
          originalRefs := outgoing;
        }
      }
      linksLoaded := true;
    }

    /** Typing in the search box. */
    method SearchReferences(text: string)
      modifies this`refSearch, this`showRefDropdown
      ensures refSearch == text && showRefDropdown
    {
      refSearch, showRefDropdown := text, true;
    }

    /** addReference: append the id, clear the search, close the dropdown. */
    method AddReference(id: string)
      modifies this`references, this`refSearch, this`showRefDropdown
      ensures references == old(references) + [id]
      ensures refSearch == "" && !showRefDropdown
    {
      references := references + [id];
      refSearch, showRefDropdown := "", false;
    }

    /** A click on the k-th entry of the dropdown, which is on screen only
      once the links are loaded and while it is open. Clean references
      stay clean. */
    method ChooseFromDropdown(k: nat, lower: string -> string)
      requires linksLoaded && showRefDropdown
      requires k < |Filtered(lower)|
      modifies this`references, this`refSearch, this`showRefDropdown
      ensures references == old(references) + [old(Filtered(lower))[k].id]
      ensures refSearch == "" && !showRefDropdown
      ensures old(RefsClean()) ==> RefsClean()
    {
      var id := Filtered(lower)[k].id;
      if RefsClean() {
        AddFromDropdownKeepsClean(allArticles, article.id, references, refSearch, lower, k);
      }
      AddReference(id);
    }

    /** removeReference: drop every occurrence of the id, keep the rest in order. */
    method RemoveReference(id: string)
      modifies this`references
      ensures references == Without(old(references), id)
      ensures old(RefsClean()) ==> RefsClean()
    {
      if RefsClean() {
        WithoutKeepsClean(references, article.id, id);
      }
      references := Without(references, id);
    }

    /** The status button. */
    method ToggleStatus()
      modifies this`status
      ensures status == Toggle(old(status))
    {
      status := Toggle(status);
    }

    /** syncReferences: create links for toAdd, then delete those for
      toRemove. Links from other articles are untouched; with a valid
      session, a table whose targets were the original references ends up
      with exactly the current references as targets. */
    method SyncReferences(links: LinkTable, cookie: Option<string>, jwtVerify: string -> bool, now: nat)
      requires links.Valid()
      modifies links
      ensures links.Valid()
      ensures !SessionVerified(cookie, jwtVerify) ==> links.rows == old(links.rows)
      ensures FromOthers(links.rows, article.id) == FromOthers(old(links.rows), article.id)
      ensures forall l :: l in links.rows && l !in old(links.rows) ==>
        l.sourceId == article.id && l.targetId in ToAdd()
      ensures forall l :: l in old(links.rows) && l !in links.rows ==>
        l.sourceId == article.id && l.targetId in ToRemove()
      ensures SessionVerified(cookie, jwtVerify) ==>
        Targets(links.rows, article.id)
          == (Targets(old(links.rows), article.id) + Addable(article.id, ToAdd())) - Elems(ToRemove())
      ensures (SessionVerified(cookie, jwtVerify) && article.id != ""
               && Targets(old(links.rows), article.id) == Elems(originalRefs)) ==>
        Targets(links.rows, article.id) == Elems(references) - {"", article.id}
    {
      ghost var rows0 := links.rows;
      ValidTargets(rows0, links.nextId, article.id);
      var toAdd := ToAdd();
      var toRemove := ToRemove();
      CreateLinks(links, cookie, jwtVerify, article.id, toAdd, now);
      DeleteLinks(links, cookie, jwtVerify, article.id, toRemove);
      if article.id != "" && Targets(rows0, article.id) == Elems(originalRefs) {
        Reconcile(originalRefs, references, article.id);
      }
    }

    /** handleSave's link part: nothing happens before the editor is ready;
      references are synchronised only once the links were loaded. */
    method HandleSave(editorReady: bool, links: LinkTable, cookie: Option<string>,
                      jwtVerify: string -> bool, now: nat)
      requires links.Valid()
      modifies links
      ensures links.Valid()
      ensures !(editorReady && linksLoaded) ==> links.rows == old(links.rows)
      ensures FromOthers(links.rows, article.id) == FromOthers(old(links.rows), article.id)
      ensures (editorReady && linksLoaded && SessionVerified(cookie, jwtVerify) && article.id != ""
               && Targets(old(links.rows), article.id) == Elems(originalRefs)) ==>
        Targets(links.rows, article.id) == Elems(references) - {"", article.id}
    {
      if !editorReady {
        return;
      }
      if linksLoaded {
        SyncReferences(links, cookie, jwtVerify, now);
      }
    }
  }
}

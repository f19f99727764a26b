/** The link routes: src/app/api/links/route.ts (GET, POST) and the delete
    by id of src/app/api/links/[id]/route.ts, which the editor calls. */
module Links {
  import opened Records
  import opened Ordering
  import opened Session
  import opened Store

  /** findUnique on the (sourceId, targetId) key: is the ordered pair linked? */
  function HasPair(rows: seq<ArticleLink>, source: string, target: string): (b: bool)
    ensures b <==> target in Targets(rows, source)
  {
    var b := exists i :: 0 <= i < |rows| && rows[i].sourceId == source && rows[i].targetId == target;
    assert b ==> target in Targets(rows, source) by {
      if b {
        var i :| 0 <= i < |rows| && rows[i].sourceId == source && rows[i].targetId == target;
        assert rows[i] in rows;
      }
    }
    assert target in Targets(rows, source) ==> b by {
      if target in Targets(rows, source) {
        var l :| l in rows && l.sourceId == source && l.targetId == target;
        var i :| 0 <= i < |rows| && rows[i] == l;
      }
    }
    b
  }

  /** The articles `source` links to. */
  function Targets(rows: seq<ArticleLink>, source: string): set<string> {
    set l | l in rows && l.sourceId == source :: l.targetId
  }

  /** The rows whose source is some other article, in table order. */
  function FromOthers(rows: seq<ArticleLink>, source: string): (r: seq<ArticleLink>)
    ensures forall l :: l in r <==> l in rows && l.sourceId != source
  {
    if |rows| == 0 then []
    else
      assert rows == [rows[0]] + rows[1..];
      (if rows[0].sourceId != source then [rows[0]] else []) + FromOthers(rows[1..], source)
  }

  lemma {:induction false} FromOthersConcat(a: seq<ArticleLink>, b: seq<ArticleLink>, source: string)
    ensures FromOthers(a + b, source) == FromOthers(a, source) + FromOthers(b, source)
  {
    if |a| > 0 {
      assert (a + b)[1..] == a[1..] + b;
      FromOthersConcat(a[1..], b, source);
    } else {
      assert a + b == b;
    }
  }

  lemma TargetsAppend(rows: seq<ArticleLink>, l: ArticleLink, source: string)
    ensures Targets(rows + [l], source)
         == Targets(rows, source) + (if l.sourceId == source then {l.targetId} else {})
  {
    assert forall m :: m in rows + [l] <==> m in rows || m == l;
  }

  // ---- GET /api/links ----

  /** GET /api/links: 401 without a session, otherwise every link, newest first. */
  function Get(rows: seq<ArticleLink>, cookie: Option<string>, jwtVerify: string -> bool): (resp: Response)
    ensures !SessionVerified(cookie, jwtVerify) ==> resp == Response(401, Error("Unauthorized"))
    ensures SessionVerified(cookie, jwtVerify) ==>
      && resp.status == 200 && resp.body.LinksJson?
      && multiset(resp.body.links) == multiset(rows)
      && NewestFirst(resp.body.links, LinkCreatedAt)
  {
    if !SessionVerified(cookie, jwtVerify) then Response(401, Error("Unauthorized"))
    else Response(200, LinksJson(SortNewestFirst(rows, LinkCreatedAt)))
  }

  // ---- POST /api/links ----

  /** The early returns of POST, in the source's order: the error response,
      or None when the link may be created. */
  function Guard(rows: seq<ArticleLink>, isAuth: bool, sourceId: Option<string>, targetId: Option<string>)
    : (g: Option<Response>)
    ensures g.Some? ==> g.value.body.Error? && !g.value.Ok()
    ensures !isAuth ==> g == Some(Response(401, Error("Unauthorized")))
    ensures (isAuth && Truthy(sourceId) && Truthy(targetId) && sourceId.value != targetId.value
             && targetId.value in Targets(rows, sourceId.value)) ==>
      g == Some(Response(409, Error("Link already exists")))
  {
    if !isAuth then Some(Response(401, Error("Unauthorized")))
    else if !Truthy(sourceId) || !Truthy(targetId) then
      Some(Response(400, Error("sourceId and targetId are required")))
    else if sourceId.value == targetId.value then
      Some(Response(400, Error("Cannot link an article to itself")))
    else if HasPair(rows, sourceId.value, targetId.value) then
      Some(Response(409, Error("Link already exists")))
    else None
  }

  /** A link the guards let through: both ends given and distinct. */
  predicate Admissible(source: string, target: string) {
    source != "" && target != "" && source != target
  }

  /** The guards admit exactly the new, admissible ordered pairs of an
      authenticated caller. */
  lemma GuardAdmits(rows: seq<ArticleLink>, isAuth: bool, sourceId: Option<string>, targetId: Option<string>)
    ensures Guard(rows, isAuth, sourceId, targetId).None? <==>
      && isAuth && sourceId.Some? && targetId.Some?
      && Admissible(sourceId.value, targetId.value)
      && targetId.value !in Targets(rows, sourceId.value)
  {
    if sourceId.Some? && targetId.Some? {
      var s, t := sourceId.value, targetId.value;
      if HasPair(rows, s, t) {
        var i :| 0 <= i < |rows| && rows[i].sourceId == s && rows[i].targetId == t;
        assert rows[i] in rows;
      } else {
        forall l | l in rows && l.sourceId == s ensures l.targetId != t {
          var i :| 0 <= i < |rows| && rows[i] == l;
        }
      }
    }
  }

  /** Guard order: a missing end is reported before a self link or a
      duplicate, and a self link before a duplicate. */
  lemma GuardOrder(rows: seq<ArticleLink>, sourceId: Option<string>, targetId: Option<string>)
    ensures !Truthy(sourceId) || !Truthy(targetId) ==>
      Guard(rows, true, sourceId, targetId) == Some(Response(400, Error("sourceId and targetId are required")))
    ensures Truthy(sourceId) && sourceId == targetId ==>
      Guard(rows, true, sourceId, targetId) == Some(Response(400, Error("Cannot link an article to itself")))
  {
  }

  /** Direction matters: an existing link a -> b does not block b -> a. */
  lemma DirectionMatters(rows: seq<ArticleLink>, a: string, b: string)
    requires Admissible(a, b) && HasPair(rows, a, b) && !HasPair(rows, b, a)
    ensures Guard(rows, true, Some(b), Some(a)).None?
    ensures Guard(rows, true, Some(a), Some(b)) == Some(Response(409, Error("Link already exists")))
  {
  }

  /** Appending a link the guards let through, under the next id, keeps the
      table's invariants. */
  lemma AdmittedKeepsValid(rows: seq<ArticleLink>, nextId: nat, source: string, target: string, now: nat)
    requires LinksValid(rows, nextId)
    requires Guard(rows, true, Some(source), Some(target)).None?
    ensures LinksValid(rows + [ArticleLink(RowId(nextId), source, target, now)], nextId + 1)
  {
    var l := ArticleLink(RowId(nextId), source, target, now);
    var r := rows + [l];
    NextIdIsFresh(nextId);
    assert !HasPair(rows, source, target);
    assert forall i :: 0 <= i < |rows| ==> Pair(rows[i]) != Pair(l) && rows[i].id != l.id;
    assert forall i :: 0 <= i < |rows| ==> r[i] == rows[i];
  }

  /** POST /api/links: the first failing guard answers and nothing changes;
      otherwise exactly one link (sourceId, targetId) is appended and 201 returned. */
  method Post(table: LinkTable, cookie: Option<string>, jwtVerify: string -> bool,
              sourceId: Option<string>, targetId: Option<string>, now: nat)
    returns (resp: Response)
    requires table.Valid()
    modifies table
    ensures table.Valid()
    ensures var g := Guard(old(table.rows), SessionVerified(cookie, jwtVerify), sourceId, targetId);
      g.Some? ==> resp == g.value && table.rows == old(table.rows) && table.nextId == old(table.nextId)
    ensures var g := Guard(old(table.rows), SessionVerified(cookie, jwtVerify), sourceId, targetId);
      g.None? ==>
        var link := ArticleLink(RowId(old(table.nextId)), sourceId.value, targetId.value, now);
        && resp == Response(201, LinkJson(link))
        && table.rows == old(table.rows) + [link]
        && table.nextId == old(table.nextId) + 1
  {
    var guard := Guard(table.rows, SessionVerified(cookie, jwtVerify), sourceId, targetId);
    if guard.Some? {
      return guard.value;
    }
    var link := ArticleLink(RowId(table.nextId), sourceId.value, targetId.value, now);
    AdmittedKeepsValid(table.rows, table.nextId, sourceId.value, targetId.value, now);
    table.rows, table.nextId := table.rows + [link], table.nextId + 1;
    resp := Response(201, LinkJson(link));
  }

  /** A pair that was just linked is refused as a duplicate the second time. */
  lemma SecondPostConflicts(rows: seq<ArticleLink>, nextId: nat, source: string, target: string, now: nat)
    requires Guard(rows, true, Some(source), Some(target)).None?
    ensures Guard(rows + [ArticleLink(RowId(nextId), source, target, now)], true, Some(source), Some(target))
         == Some(Response(409, Error("Link already exists")))
  {
    var r := rows + [ArticleLink(RowId(nextId), source, target, now)];
    assert r[|rows|].sourceId == source && r[|rows|].targetId == target;
  }

  // ---- DELETE /api/links/:id ----

  /** findUnique({ where: { id } }): the position of the row with that id. */
  function FindIndexById(rows: seq<ArticleLink>, id: string): (r: Option<nat>)
    ensures r.Some? ==> r.value < |rows| && rows[r.value].id == id
    ensures r.None? ==> forall i :: 0 <= i < |rows| ==> rows[i].id != id
  {
    if |rows| == 0 then None
    else if rows[0].id == id then Some(0)
    else match FindIndexById(rows[1..], id)
      case None => None
      case Some(k) => Some(k + 1)
  }

  /** Removing one row keeps the table's invariants. */
  lemma RemovalKeepsValid(rows: seq<ArticleLink>, nextId: nat, k: nat)
    requires LinksValid(rows, nextId) && k < |rows|
    ensures LinksValid(rows[..k] + rows[k + 1..], nextId)
  {
    var r := rows[..k] + rows[k + 1..];
    assert forall i :: 0 <= i < |r| ==> r[i] == rows[if i < k then i else i + 1];
  }

  /** Removing the k-th row of a valid table drops exactly that row. */
  lemma RemovalMembers(rows: seq<ArticleLink>, nextId: nat, k: nat)
    requires LinksValid(rows, nextId) && k < |rows|
    ensures forall l :: l in rows[..k] + rows[k + 1..] <==> l in rows && l != rows[k]
  {
    var r := rows[..k] + rows[k + 1..];
    assert forall i :: 0 <= i < |r| ==> r[i] == rows[if i < k then i else i + 1];
    forall l | l in rows && l != rows[k] ensures l in r {
      var i :| 0 <= i < |rows| && rows[i] == l;
      assert r[if i < k then i else i - 1] == l;
    }
    forall l | l in r ensures l != rows[k] {
      var i :| 0 <= i < |r| && r[i] == l;
      assert rows[if i < k then i else i + 1] == l;
    }
  }

  /** Removing the k-th row takes its target out of its source's targets and
      changes nothing else. */
  lemma RemovalTargets(rows: seq<ArticleLink>, nextId: nat, k: nat, source: string)
    requires LinksValid(rows, nextId) && k < |rows|
    ensures Targets(rows[..k] + rows[k + 1..], source)
         == Targets(rows, source) - (if rows[k].sourceId == source then {rows[k].targetId} else {})
  {
    RemovalMembers(rows, nextId, k);
    if rows[k].sourceId == source {
      forall l | l in rows && l.sourceId == source && l.targetId == rows[k].targetId ensures l == rows[k] {
        SamePairSameLink(rows, nextId, l, rows[k]);
      }
    }
  }

  /** Removing a row of `source` leaves the other sources' rows as they were. */
  lemma RemovalFromOthers(rows: seq<ArticleLink>, k: nat, source: string)
    requires k < |rows| && rows[k].sourceId == source
    ensures FromOthers(rows[..k] + rows[k + 1..], source) == FromOthers(rows, source)
  {
    var a, b := rows[..k], rows[k + 1..];
    assert rows == a + ([rows[k]] + b);
    FromOthersConcat(a, [rows[k]] + b, source);
    FromOthersSkip(rows[k], b, source);
    FromOthersConcat(a, b, source);
  }

  /** A row of `source` itself contributes nothing to FromOthers. */
  lemma FromOthersSkip(x: ArticleLink, b: seq<ArticleLink>, source: string)
    requires x.sourceId == source
    ensures FromOthers([x] + b, source) == FromOthers(b, source)
  {
    assert ([x] + b)[1..] == b;
  }

  /** DELETE /api/links/:id: 401 without a session, 404 for an unknown id,
      otherwise the row with that id is removed. */
  method Delete(table: LinkTable, cookie: Option<string>, jwtVerify: string -> bool, id: string)
    returns (resp: Response)
    requires table.Valid()
    modifies table
    ensures table.Valid() && table.nextId == old(table.nextId)
    ensures !SessionVerified(cookie, jwtVerify) ==>
      resp == Response(401, Error("Unauthorized")) && table.rows == old(table.rows)
    ensures SessionVerified(cookie, jwtVerify) && FindIndexById(old(table.rows), id).None? ==>
      resp == Response(404, Error("Not found")) && table.rows == old(table.rows)
    ensures SessionVerified(cookie, jwtVerify) && FindIndexById(old(table.rows), id).Some? ==>
      var k := FindIndexById(old(table.rows), id).value;
      resp == Response(200, Success) && table.rows == old(table.rows)[..k] + old(table.rows)[k + 1..]
  {
    if !SessionVerified(cookie, jwtVerify) {
      return Response(401, Error("Unauthorized"));
    }
    var found := FindIndexById(table.rows, id);
    if found.None? {
      return Response(404, Error("Not found"));
    }
    var k := found.value;
    RemovalKeepsValid(table.rows, table.nextId, k);
    table.rows := table.rows[..k] + table.rows[k + 1..];
    resp := Response(200, Success);
  }
}

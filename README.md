# artikelku core, modelled in Dafny

This project models the server core of the artikelku notebook: a canvas of
articles joined by directed "reference" links, guarded by a single password.
It covers five parts:

- **Articles.** Creating an article allocates its slug as the first free one
  among `base`, `base-1`, `base-2`, and so on. Listing returns only the
  published articles to visitors and every article to the signed-in owner,
  newest first.
- **Links.** The link routes keep the table free of self-links and of
  duplicate ordered pairs. A guard chain answers 401, 400, 400 or 409 before
  anything is inserted. A link is deleted by id. That route is
  `src/app/api/links/[id]/route.ts`: lines 10-13 check the session, 15-19
  answer 404 for an unknown id, and 21-23 delete the row. The table cites
  those members at the component's call to it, ArticleEditor.tsx line 135.
- **Editor reconciliation.** The article editor keeps a list of referenced
  articles. On save it creates the missing links and deletes the dropped ones.
- **Password auth.** The password is set once, login checks it against the
  stored hash, and a status route reports both facts.
- **Middleware.** A route guard lets `/canvas` through only with a session
  token that verifies.

Modules:

- `Records`: the record shapes and the JSON responses.
- `Decimal`: natural numbers written in decimal.
- `Ordering`: the `createdAt desc` ordering.
- `Session`: the session cookie.
- `Store`: the tables, as classes with their invariants.
- `Articles`, `Links`, `Editor`, `Auth`, `RouteGuard`: one module per route
  file or component.

The database is modelled as tables held in class fields.

External calls become parameters:

- the slug library (`slugify`);
- password hashing and checking (`hashPassword`, `verifyPassword`);
- JWT verification (`jwtVerify`, `verifyToken`);
- `toLowerCase` (`lower`);
- the clock (`now`);
- the token `createSession` signs (`token`);
- whether a browser fetch reaches the server (`reachable`).

Requests are served one at a time.

## Model

| member | source | states |
|---|---|---|
| Decimal.NatToString | src/app/api/articles/route.ts:30 | the decimal text of a counter is non-empty, all digits, and starts with 0 only for 0 |
| Decimal.ParseNatToString | src/app/api/articles/route.ts:30 | reading the decimal text back gives the number: the rendering loses nothing |
| Decimal.NatToStringInjective | src/app/api/articles/route.ts:30 | distinct counters render as distinct strings |
| Articles.Candidate | src/app/api/articles/route.ts:26-30 | every candidate extends the base slug, and only the first candidate is the base itself |
| Articles.CandidateInjective | src/app/api/articles/route.ts:26-31 | the candidate slugs base, base-1, base-2, ... are pairwise distinct |
| Articles.CandidateSet | src/app/api/articles/route.ts:26-31 | the first n candidates form a set of exactly n slugs |
| Articles.FindBySlug | src/app/api/articles/route.ts:29 | the lookup by slug finds a row exactly when the slug is in use, and what it finds has that slug |
| Articles.FirstFreeUnique | src/app/api/articles/route.ts:26-32 | there is only one first free candidate, so the loop's result is determined by the table |
| Articles.AllocateSlug | src/app/api/articles/route.ts:25-32 | the loop ends with an unused slug that is base or base-k, every earlier candidate being taken, and keeps base when it is free |
| Articles.SuccessiveSlugs | src/app/api/articles/route.ts:26-32 | on a table using none of the first n candidates, n successive creations from one base get base, base-1, base-2, ... in turn |
| Articles.SlugAt | src/app/api/articles/route.ts:26-32 | in such a run of creations, the i-th one gets the i-th candidate, every earlier creation having taken the earlier candidates |
| Articles.NextCandidateFree | src/app/api/articles/route.ts:29-31 | once the earlier candidates are taken and the next one is not, the loop stops at that next one |
| Articles.SequentialSlugs | src/app/api/articles/route.ts:26-32 | two creations from the same base on a table using neither candidate get base and then base-1 |
| Articles.StoredTitle | src/app/api/articles/route.ts:36 | the stored title is never empty: the given title when it is non-empty, "Untitled" otherwise |
| Articles.SlugSource | src/app/api/articles/route.ts:25 | the text given to slugify is never empty: the given title when it is non-empty, "untitled" otherwise |
| Articles.Post | src/app/api/articles/route.ts:17-44 | without a session: 401 with the rows and the id counter unchanged; with one: 201 and exactly one draft appended with the stored title, the first free slug, positions defaulting to 0, a fresh id; slugs stay unique |
| Articles.PublishedOnly | src/app/api/articles/route.ts:10 | the visitor filter keeps exactly the published rows and adds none |
| Articles.List | src/app/api/articles/route.ts:9-12 | every row (as a multiset) for the owner, exactly the published ones for a visitor, newest first in both cases |
| Articles.Get | src/app/api/articles/route.ts:6-15 | GET never fails; its list is all rows with a session and only published rows without |
| Ordering.Insert | src/app/api/articles/route.ts:11 | inserting into a newest-first list keeps it newest first and adds exactly that one element |
| Ordering.SortNewestFirst | src/app/api/links/route.ts:11-13 | the ordering is a permutation of its input and newest first |
| Ordering.SortKeepsDistinct | src/app/api/links/route.ts:11-13 | reordering keeps a list free of repeated keys, such as repeated link pairs |
| Store.RowIdInjective | src/types/index.ts:2 | generated ids of different rows differ |
| Store.NextIdIsFresh | src/types/index.ts:2 | the next generated id differs from every later one, so new rows get fresh ids |
| Store.SameIdSameLink | src/components/ArticleEditor.tsx:135 | in a valid link table an id names at most one row |
| Store.SamePairSameLink | src/app/api/links/route.ts:34-36 | in a valid link table an ordered pair names at most one row |
| Links.FromOthers | src/components/ArticleEditor.tsx:112-139 | the links whose source is another article, in table order, exactly |
| Links.FromOthersConcat | src/components/ArticleEditor.tsx:112-139 | the links of other articles are selected piecewise over a split table |
| Links.TargetsAppend | src/app/api/links/route.ts:42-44 | appending a link adds its target to its source's targets and changes no other article's targets |
| Links.Get | src/app/api/links/route.ts:5-16 | 401 without a session; otherwise 200 with every link, as a permutation, newest first |
| Session.SessionVerified | src/lib/auth.ts:18-28 | a missing or empty cookie never authenticates; a non-empty token authenticates exactly when it verifies |
| Links.HasPair | src/app/api/links/route.ts:34-38 | the lookup on the ordered pair finds a link exactly when the target is among the source's targets |
| Links.Guard | src/app/api/links/route.ts:19-40 | every refusal is an error response; without a session it is 401 "Unauthorized"; for a valid pair that is already linked it is 409 "Link already exists" |
| Links.GuardAdmits | src/app/api/links/route.ts:19-40 | the guards let a request through exactly when the caller is signed in, both ids are non-empty and distinct, and the ordered pair is new |
| Links.GuardOrder | src/app/api/links/route.ts:26-32 | a missing id answers "sourceId and targetId are required" and a self-link "Cannot link an article to itself", both 400 |
| Links.DirectionMatters | src/app/api/links/route.ts:34-40 | uniqueness is on the ordered pair: a to b being present yields 409 for a to b but admits b to a |
| Links.AdmittedKeepsValid | src/app/api/links/route.ts:42-44 | inserting an admitted link keeps the table free of self-links, duplicate pairs and duplicate ids |
| Links.Post | src/app/api/links/route.ts:18-47 | a refused request returns the guard's response and leaves the table as it was; an admitted one returns 201 with the new link, appended as the only change |
| Links.SecondPostConflicts | src/app/api/links/route.ts:34-40 | posting the same pair again right after a success answers 409 "Link already exists" |
| Links.FindIndexById | src/components/ArticleEditor.tsx:135 | the lookup by id finds a row with that id, or reports that none exists |
| Links.RemovalKeepsValid | src/components/ArticleEditor.tsx:135 | deleting a row keeps the table valid |
| Links.RemovalMembers | src/components/ArticleEditor.tsx:135 | deleting a row removes exactly that row |
| Links.RemovalTargets | src/components/ArticleEditor.tsx:135 | deleting a link removes its target from its source's targets, and only that |
| Links.RemovalFromOthers | src/components/ArticleEditor.tsx:135 | deleting a link of one article leaves the links of the other articles as they were |
| Links.Delete | src/components/ArticleEditor.tsx:135 | 401 without a session, 404 "Not found" for an unknown id, otherwise 200 with exactly that row removed |
| Editor.OtherArticles | src/components/ArticleEditor.tsx:36-39 | the reference candidates are every article except the one edited |
| Editor.FilteredArticles | src/components/ArticleEditor.tsx:62-68 | the dropdown offers exactly the other articles not yet referenced whose lower-cased title includes the lower-cased search |
| Editor.Outgoing | src/components/ArticleEditor.tsx:48-50 | the ids extracted from the fetched links are exactly the edited article's targets |
| Editor.Missing | src/components/ArticleEditor.tsx:113-114 | toAdd and toRemove hold exactly the elements of one list not in the other |
| Editor.Without | src/components/ArticleEditor.tsx:76-78 | removing a reference drops exactly that id and keeps every other one |
| Editor.WithoutKeepsOrder | src/components/ArticleEditor.tsx:76-78 | the filter works piecewise, so the remaining references keep their order |
| Editor.Toggle | src/components/ArticleEditor.tsx:229 | the status button always changes the status |
| Editor.ToggleTwice | src/components/ArticleEditor.tsx:229 | pressing it twice restores the status |
| Editor.FirstIndexOf | src/components/ArticleEditor.tsx:82 | the search from a position yields the first index holding the id, or reports that no index does |
| Editor.FindArticle | src/components/ArticleEditor.tsx:82 | finds the first article with the id, or reports that there is none |
| Editor.ArticleTitle | src/components/ArticleEditor.tsx:80-86 | the pill label is never empty; it is the title of the first article with the id when that title is non-empty, and "Unknown" when no article has the id or its title is empty |
| Editor.AddFromDropdownKeepsClean | src/components/ArticleEditor.tsx:62-74 | adding an id that the dropdown offers never repeats a reference and never references the article itself |
| Editor.WithoutKeepsClean | src/components/ArticleEditor.tsx:76-78 | removal keeps the references free of repeats and of the article itself |
| Editor.DiffShape | src/components/ArticleEditor.tsx:113-114 | toAdd comes from the current list, toRemove from the original one, and they share no id |
| Editor.NoChangeNoRequests | src/components/ArticleEditor.tsx:113-139 | when the references are unchanged as a set, save sends no create and no delete |
| Editor.MissingEmpty | src/components/ArticleEditor.tsx:113-114 | the diff is empty when every element is in the other list |
| Editor.LoadedReferences | src/components/ArticleEditor.tsx:45-52 | the freshly loaded references are exactly the article's targets, without repeats and without the article |
| Editor.OutgoingNoDup | src/components/ArticleEditor.tsx:48-50 | a link list without repeated pairs yields outgoing ids without repeats |
| Editor.CreateStep | src/components/ArticleEditor.tsx:117-123 | one POST of the create loop adds its target when admissible and changes no other article's links |
| Editor.CreateLinks | src/components/ArticleEditor.tsx:116-123 | the create loop makes exactly the admissible ids of toAdd into targets, adds links only from the edited article, and keeps the other articles' links |
| Editor.FindLink | src/components/ArticleEditor.tsx:131-133 | finds a link with that source and target, or reports that there is none |
| Editor.StillThere | src/components/ArticleEditor.tsx:131-136 | a link taken from the fetched list is still the row with its id, or its pair is already gone |
| Editor.DeleteStep | src/components/ArticleEditor.tsx:130-137 | one step of the delete loop removes that target from the edited article's targets, and nothing of another article |
| Editor.DeleteFetched | src/components/ArticleEditor.tsx:129-137 | the loop over the fetched list leaves a table whose targets lost exactly the ids of toRemove, with only links of the edited article gone |
| Editor.DeleteLinks | src/components/ArticleEditor.tsx:125-139 | with a session the delete loop removes exactly the ids of toRemove from the targets, deletes only links of the edited article, and keeps the other articles' links; without one nothing changes |
| Editor.Reconcile | src/components/ArticleEditor.tsx:112-139 | the original targets plus the addable toAdd ids minus the toRemove ids equal the current references, without the empty id and the article itself |
| Editor.ValidTargets | src/app/api/links/route.ts:26-32 | a valid table never has the empty id or the source itself as a target |
| Editor.ArticleEditor.constructor | src/components/ArticleEditor.tsx:26-34 | the editor starts from the article's title and status, with empty reference lists, an empty closed search, and links not loaded |
| Editor.ArticleEditor.LoadLinks | src/components/ArticleEditor.tsx:42-60 | on a successful fetch both lists become the outgoing ids; on failure they stay; linksLoaded is set in every case; with a session the list is clean and equals the article's targets |
| Editor.ArticleEditor.SearchReferences | src/components/ArticleEditor.tsx:302-306 | typing sets the search text and opens the dropdown |
| Editor.ArticleEditor.AddReference | src/components/ArticleEditor.tsx:70-74 | appends the id, clears the search and closes the dropdown |
| Editor.ArticleEditor.ChooseFromDropdown | src/components/ArticleEditor.tsx:272-320 | picking an offered entry appends its id and keeps clean references clean |
| Editor.ArticleEditor.RemoveReference | src/components/ArticleEditor.tsx:76-78 | drops every occurrence of the id and keeps clean references clean |
| Editor.ArticleEditor.ToggleStatus | src/components/ArticleEditor.tsx:228-230 | swaps draft and published |
| Editor.ArticleEditor.SyncReferences | src/components/ArticleEditor.tsx:112-140 | other articles' links are untouched; only links for toAdd appear, and only links for toRemove go; with a session, targets that matched the original references end up equal to the current references |
| Editor.ArticleEditor.HandleSave | src/components/ArticleEditor.tsx:142-161 | nothing happens before the editor exists, and references are synchronised only once the links were loaded |
| Auth.SetupOutcome | src/app/api/auth/setup/route.ts:6-37 | setup succeeds exactly when no hash is stored and the password has at least 4 characters; 400 "Password already set" or 400 "Password must be at least 4 characters" otherwise, with settings and session unchanged; success stores exactly password_hash to the hash and issues the session |
| Auth.Setup | src/app/api/auth/setup/route.ts:6-37 | the handler's response, settings and cookie are the ones SetupOutcome gives |
| Auth.LoginOutcome | src/app/api/auth/login/route.ts:6-30 | login never writes settings; 400 "Password not set up yet" without a hash, 401 "Wrong password" with no session when verification fails, otherwise success and a session |
| Auth.Login | src/app/api/auth/login/route.ts:6-30 | the handler changes only the cookie, as LoginOutcome gives |
| Auth.Status | src/app/api/auth/status/route.ts:5-16 | always 200; hasPassword exactly when the hash row exists, isAuthenticated exactly when the session verifies |
| Auth.WriteOnce | src/app/api/auth/setup/route.ts:7-16 | once a hash is stored, no sequence of setup, login and status requests changes the settings |
| Auth.SetupRefusedAfterSuccess | src/app/api/auth/setup/route.ts:7-16 | after a successful setup every further setup answers 400 "Password already set" |
| Auth.SetupThenLogin | src/app/api/auth/login/route.ts:20-29 | after setup with p, login with p succeeds, given that the password library verifies p against its own hash |
| Auth.SuccessAuthenticates | src/app/api/auth/setup/route.ts:33-36 | after a successful setup or login whose token verifies, status reports a password set and the caller signed in |
| RouteGuard.SessionToken | src/middleware.ts:5 | the token is present exactly when the request has the nulis-session cookie, and it is that cookie's value |
| RouteGuard.Middleware | src/middleware.ts:4-17 | redirects to "/" when the token is missing or empty or fails verification, and passes exactly when it verifies |
| RouteGuard.Route | src/middleware.ts:19-21 | the middleware runs on the matcher's paths only; every other path passes |
| RouteGuard.GuardedPaths | src/middleware.ts:4-21 | a request passes exactly when its path is not /canvas or its session verifies |

## Left out

- Library internals are parameters, not models: the slug rules of `slugify`, bcrypt-style hashing, and JWT signing, expiry and verification. The dependence on them is stated where it matters, for example `verifyPassword(Some(p), hashPassword(p))` in `Auth.SetupThenLogin`.
- `Auth.SuccessAuthenticates`: assumes the token issued by `createSession` verifies, because signing is the library's business.
- Concurrency: requests are sequential. The check-then-create races in slug allocation and link creation between concurrent requests are not modelled.
- Generated ids: the store's cuid ids are modelled as `"c"` followed by a per-table counter. Only their uniqueness is used.
- Schema defaults: `content` and `contentHtml` of a new article are stored as empty strings, because the schema that defines their defaults is not part of this model.
- Foreign keys: the constraint that a link's ends name existing articles is not modelled, because it lives in the schema.
- The article PUT and DELETE routes (src/app/api/articles/[slug]/route.ts) are not modelled. This includes the PUT that handleSave sends, because it stores editor content that the TipTap library produces.
- The editor's TipTap content parsing and HTML rendering are not modelled: they are a foreign library.
- The delete button, the keyboard shortcuts and the focus and close handlers of the dropdown are not modelled.
- The upload route is not modelled: it is file I/O and randomness.
- The other UI components and pages are not modelled.
- `Articles.Post`: positions and timestamps are reals and naturals. JavaScript number precision and date strings are not modelled.
- `Auth.SetupOutcome`: a password's length is counted in characters. JavaScript's UTF-16 code-unit length is not modelled.
- The fields read with `||` or a truthiness test are the article `title`, the link `sourceId` and `targetId`, and the setup `password`. For these, a falsy value of another JSON type (`0`, `false`, `null`) behaves as an absent field, which is the `None` case of the model.
- A body that is not JSON makes the handler throw, which this model does not represent.
- Other wrong-typed fields, such as a numeric title or password, are not modelled. What they do depends on slugify, Prisma or the password library. For example, a numeric setup password passes the length check, because its `length` is undefined, and then goes to `hashPassword`.
- `Articles.Post`: `positionX` and `positionY` are read with `??`, which replaces only `null` and an absent field. A `false`, `""` or other non-number is kept and handed to Prisma; the model's `Option<real>` has no such value.
- `Auth.LoginOutcome`: the login `password` has no truthiness test. Any JSON value, including `0`, `false` or `null`, goes to `verifyPassword` unchanged; the model has only a string or an absent field.
- `Editor.ArticleEditor.LoadLinks`: a failed or thrown fetch is the `reachable` flag. The cases it covers are a lost network and a body that is not JSON.
- `Editor.ArticleEditor.SyncReferences`: every request of the loops is assumed to reach the server. Link responses are ignored, as in the component.
- The optional `outgoingLinks` and `incomingLinks` relation fields of an article are not modelled. No core route returns them.
- Cookie attributes are not modelled: httpOnly, secure, sameSite, maxAge and path.
- `clearSessionCookie` is not modelled, because no core route calls it.

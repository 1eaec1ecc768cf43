# Landing-page A/B variant selection (Mautic `PublicController::indexAction`)

This project models the decision part of Mautic's public landing-page action,
`PublicController::indexAction`. The model covers the steps up to the point where the page to render is known:

- whether the request ends in a 404, a 401, the page's own redirect, or a 301 to the variant parent;
- for an anonymous visitor of a published variant parent, which page of the A/B variant group is shown;
- whether the sticky-variant cookie `mautic_page_<parent id>` is written, with what value and lifetime.

Everything is modelled on immutable value snapshots. A `Page` snapshot holds the page's
publication flag, preference-centre flag, redirect settings, variant parent, variant hits,
translations and variant children. A `Child` holds its publication flag, weight setting in
percent, hits and translations. The request holds the resolved page, the user-access flag
and the cookie jar. The result is an `Outcome`. Collaborators become inputs or outputs:

- `hasEntityAccess` is an input flag;
- `generateUrl($parentVariant)` becomes the `RedirectToParent(parentId)` outcome;
- the cookie helper's `setCookie` becomes the `setCookie` field of `Display`;
- `hitPage` becomes the status `IndexAction.HitStatus` assigns to each outcome (`IndexProperties.RecordedStatus`).

Modules:

- `PhpStrings` covers the PHP value semantics the cookie logic depends on. This is the decimal
  string form of an id and the conversion of a string array index to an integer key, which
  decides `isset($variants[$cookie])`: only the canonical numeral `"5"` finds child 5, while
  `"05"` or `" 5"` do not. It also covers `empty()`, under which `null`, `""` and `"0"` are empty.
- `Pages` holds the entity snapshots and the sum of published translation hits.
- `Candidates` builds the `$variants` array. The children loop adds one entry per published
  child. The parent's entry gets the residual weight `(100 − Σ published weights)/100`, which is
  not clamped. The running hit total is also computed here.
- `Ranking` covers the deficit `weight − hits/totalHits` (the plain weight when the total is 0),
  the `uasort` comparator, and the entry that ends up first.
- `IndexAction` holds the outcome dispatch (`Index`) and the variant selection (`SelectVariant`).
- `IndexProperties` and `WorkedExamples` hold the lemmas about the outcome and some concrete groups.

## Behaviour of the code as written

The model keeps these behaviours of the code rather than the behaviour one might expect:

- **Hit total.** The total used for the deficits is computed at
  `PublicController.php:120,140,170`. It is the parent's own variant hits, without its
  translations, plus the hits of every published child. Line 170 then adds `$variants[$id]['hits']`,
  where `$id` is the last child key left over from the loop at line 122. So the last child's
  hits are counted twice when it is published, and nothing is added when it is not.
  `Candidates.TotalHitsAsWritten` states this. `WorkedExamples.TotalHitsChangesChoice` shows a
  group where this total (11) ranks the parent first, while the entries' own total (8) would rank
  the child first.
- **Residual weight.** The parent's weight is not clamped. Children weighted 70% and 60% give
  the parent −30% (`WorkedExamples.OverweightChildren`).
- **Sticky cookie.** A non-empty cookie never triggers a new selection. If it names a child that
  is unknown or unpublished, the parent is shown and no cookie is written. One might expect a
  stale assignment to be dropped and a fresh selection made; the code does not do that, and the
  model follows the code (`IndexProperties.StickyCookieIsObeyed`).
- **Cookie value `"0"`.** PHP's `empty()` treats the string `"0"` as empty. A cookie naming
  page id 0 would therefore never stick. Database ids start at 1, so the round-trip lemma assumes
  positive ids (`Pages.WellFormed`).
- **Ties.** When entries have equal deficit and equal hits, the comparator returns 0 and the
  order is left to `uasort`. The model takes the earliest such entry in array order, which is
  what a stable sort gives (PHP 8). The order-independent promises (`Ranking.TopRanked`) do not
  depend on that choice.

## Model

| member | source | states |
|---|---|---|
| `PhpStrings.NatToString` | app/bundles/PageBundle/Controller/PublicController.php:201-205 | the cookie value written for an id is a canonical decimal numeral (no sign, no leading zero, "0" only for 0) whose digit value is the id again |
| `PhpStrings.CanonicalRoundTrip` | app/bundles/PageBundle/Controller/PublicController.php:149 | every canonical numeral is the decimal form of its own value, so a numeric string key determines a unique id |
| `PhpStrings.KeyOfIdIff` | app/bundles/PageBundle/Controller/PublicController.php:149-152 | a cookie string indexes the integer key of id n exactly when it is n written in canonical decimal |
| `PhpStrings.IdStringEmptyIff` | app/bundles/PageBundle/Controller/PublicController.php:148 | under `empty()` the decimal form of an id reads as empty exactly when the id is 0 |
| `Pages.PublishedTranslationHits` | app/bundles/PageBundle/Controller/PublicController.php:132-138 | the hits folded in from translations never exceed all translations' hits, are all of them when every translation is published, and are 0 when none is |
| `Pages.PublishedHitsAreFilteredHits` | app/bundles/PageBundle/Controller/PublicController.php:132-138 | the folded-in hits are exactly the summed hits of the published translations, as selected by `Pages.PublishedOnly` |
| `Pages.PublishedOnly` | app/bundles/PageBundle/Controller/PublicController.php:134-136 | the translations that pass the `isPublished()` test: every kept translation is published, and none is invented |
| `Pages.PublishedOnlyMembers` | app/bundles/PageBundle/Controller/PublicController.php:134-136 | a translation is kept exactly when it is one of the page's translations and is published |
| `Candidates.ChildCandidate` | app/bundles/PageBundle/Controller/PublicController.php:124-138 | a published child's entry has the child's key, weight = setting/100, and hits equal to its own hits plus the hits of its published translations (so between its own and its own plus all its translations', and exactly its own when no translation is published) |
| `Candidates.ScanChildren` | app/bundles/PageBundle/Controller/PublicController.php:118-142 | after the children loop the hit total is the start total plus the sum of the stored entries' hits, the summed weight setting is 100 times the entries' summed weight, and there are exactly as many entries as published children |
| `Candidates.ScanEntriesArePublishedChildren` | app/bundles/PageBundle/Controller/PublicController.php:122-141 | an entry is stored exactly when it is the entry of a published child: unpublished children never become candidates |
| `Candidates.ParentCandidate` | app/bundles/PageBundle/Controller/PublicController.php:156-168 | the parent's entry has the parent's key, weight 1 − Σ published child weights (unclamped), and hits equal to its own hits plus the hits of its published translations |
| `Candidates.FreshCandidates` | app/bundles/PageBundle/Controller/PublicController.php:156-160 | the fresh-selection array is the child entries, unchanged and in order, followed by the parent's entry; the weights of all its entries add up to exactly 1 and its hits are the children's plus the parent's |
| `Candidates.Lookup` | app/bundles/PageBundle/Controller/PublicController.php:170 | `$variants[$id]` yields an entry stored under that key, and yields nothing exactly when no entry has that key |
| `Candidates.LastKeyHitsIsLastChild` | app/bundles/PageBundle/Controller/PublicController.php:122-170 | with unique ids the amount added at line 170 is the last child's hits if it is published and 0 otherwise |
| `Candidates.TotalHitsAsWritten` | app/bundles/PageBundle/Controller/PublicController.php:120-170 | the hit total is parent's own hits + Σ published child hits + the last child's hits again; equivalently, all entries' hits minus the parent's translation hits plus the last child's hits |
| `Ranking.Deficit` | app/bundles/PageBundle/Controller/PublicController.php:174 | a deficit never exceeds the target weight and equals it exactly when the total or the entry's hits are 0; with a non-zero total, deficit × total = weight × total − hits |
| `Ranking.DeficitSum` | app/bundles/PageBundle/Controller/PublicController.php:173-175 | the deficits add up to the summed weight minus the share of the total that the entries' hits make up |
| `Ranking.FreshDeficitsSum` | app/bundles/PageBundle/Controller/PublicController.php:156-175 | on a fresh selection the deficits add up to 1 − Σhits/total, which is 0 only when the total equals the entries' hits |
| `Ranking.Compare` | app/bundles/PageBundle/Controller/PublicController.php:180-192 | the comparator puts a first exactly when a has the larger deficit or the same deficit and no more hits, and returns 0 exactly on equal deficit and hits |
| `Ranking.CompareIsTotalPreorder` | app/bundles/PageBundle/Controller/PublicController.php:178-193 | the comparator is antisymmetric in sign, transitive and reflexive, so the sort's first element is well defined up to ties |
| `Ranking.Best` | app/bundles/PageBundle/Controller/PublicController.php:178-198 | the entry the sort puts first has maximal deficit and, among maximal-deficit entries, minimal hits; every earlier entry ranks strictly after it (stable order) |
| `Ranking.FirstRanked` | app/bundles/PageBundle/Controller/PublicController.php:197-198 | `key()` after the sort names a top-ranked entry: maximal deficit, then minimal hits |
| `IndexAction.StickyChoice` | app/bundles/PageBundle/Controller/PublicController.php:148-154 | a cookie selects a child only when it converts to that child's integer key and the child has an entry; otherwise no entry's key matches it |
| `IndexAction.FreshChoice` | app/bundles/PageBundle/Controller/PublicController.php:172-198 | the chosen position of a fresh selection is top-ranked among parent and published children against the as-written hit total |
| `IndexAction.SelectVariant` | app/bundles/PageBundle/Controller/PublicController.php:117-210 | selection always displays the parent or a published child; a cookie is written exactly when some child is published and the cookie is empty, and then it is `mautic_page_<parent>` = shown id for 1209600 s |
| `IndexAction.Index` | app/bundles/PageBundle/Controller/PublicController.php:55-115 | 404 exactly for a missing or preference-centre page; redirect/401 exactly for an unpublished page without access; 301 to the parent exactly for a published variant without access; a user with access sees the page itself with no cookie |
| `IndexProperties.RecordedStatus` | app/bundles/PageBundle/Controller/PublicController.php:55-294 | `hitPage` records 404 for a missing or preference-centre page, the redirect type or 401 for an unpublished page without access, 301 for a variant child without access, and 200 for every rendered page |
| `IndexProperties.PublishedChildIffEntries` | app/bundles/PageBundle/Controller/PublicController.php:117-144 | the array of entries is non-empty exactly when some child is published |
| `IndexProperties.UnpublishedWithoutAccess` | app/bundles/PageBundle/Controller/PublicController.php:60-70 | an unpublished page without user access redirects with its redirect type when one is set (not null, not 0), otherwise it is access-denied |
| `IndexProperties.UserAccessSkipsSelection` | app/bundles/PageBundle/Controller/PublicController.php:107-115 | a user with access is never redirected to the parent nor sent through A/B selection: the requested page is shown and no cookie is written |
| `IndexProperties.NoPublishedChildrenShowsParent` | app/bundles/PageBundle/Controller/PublicController.php:117-144 | with no children or no published children the parent is shown and no cookie is written, whatever the cookie holds |
| `IndexProperties.StickyCookieIsObeyed` | app/bundles/PageBundle/Controller/PublicController.php:146-154 | with a non-empty cookie nothing is written; the published child the cookie names is shown, and the parent when it names no published child |
| `IndexProperties.StickyChoiceOfChildren` | app/bundles/PageBundle/Controller/PublicController.php:149-152 | a cookie selects the published child whose id it spells in decimal, and selects nothing when it spells no published child's id |
| `IndexProperties.FreshSelectionPicksLargestDeficit` | app/bundles/PageBundle/Controller/PublicController.php:155-209 | with an empty cookie and a published child, the shown id has the largest deficit and the fewest hits among those, and is written to `mautic_page_<parent>` for 14 days |
| `IndexProperties.ColdStartPicksHeaviest` | app/bundles/PageBundle/Controller/PublicController.php:174 | when the hit total is 0 the shown entry has the largest configured weight |
| `IndexProperties.StickyRoundTrip` | app/bundles/PageBundle/Controller/PublicController.php:146-209 | a fresh selection (empty cookie, some published child) writes a cookie, and replaying the request with that cookie shows the same page and writes nothing |
| `WorkedExamples.ThreeWayTotal` | app/bundles/PageBundle/Controller/PublicController.php:120-170 | parent 40% with 0 hits and children 30%/10 hits and 30%/5 hits: the hit total is 20, not 15 |
| `WorkedExamples.ThreeWayRanking` | app/bundles/PageBundle/Controller/PublicController.php:173-198 | in that group the deficits are −0.2, 0.05 and 0.4, so the parent's entry ranks first |
| `WorkedExamples.ThreeWayGroup` | app/bundles/PageBundle/Controller/PublicController.php:200-209 | a first visit to that group shows the parent and sets `mautic_page_1` = "1" for 1209600 s |
| `WorkedExamples.OverweightChildren` | app/bundles/PageBundle/Controller/PublicController.php:156-160 | children weighted 70% and 60% leave the parent a weight of −0.3 |
| `WorkedExamples.TotalHitsChangesChoice` | app/bundles/PageBundle/Controller/PublicController.php:170 | parent 60%/5 hits, child 40%/3 hits: the as-written total 11 shows the parent, while ranking against the entries' total 8 would pick the child |
| `WorkedExamples.UnpublishedLastChild` | app/bundles/PageBundle/Controller/PublicController.php:170 | an unpublished last child adds nothing to the hit total |

## Left out

- URL correction at `PublicController.php:84-100`. It depends on `generateUrl` and the request URI, which are not part of this model. The model starts from a request whose URL already matches or carries `ignore_mismatch`.
- Contact lookup at `PublicController.php:73-81`. It only feeds hit tracking and translation choice.
- Translation redirect at `PublicController.php:214-230`. It depends on `getTranslatedEntity`, which is not part of this model. `Display` names the page chosen before that step.
- Rendering, analytics and noindex injection, asset scripts and the `PageDisplayEvent` (`PublicController.php:233-291`). This is template and framework glue.
- The other actions of the controller: preview, tracking pixel and tracking endpoints, video hits, contact id, and `redirectAction`. These are tracking services and HTTP responses.
- `ReplaceApiCredentialsCommand` and `UpdateAdminPasswordCommand`. They are ORM loops and a password encoder with no decision logic.
- Hit persistence. `hitPage` is represented only by the status in `IndexAction.HitStatus`; counters are snapshot inputs.
- Loading the page by slug, `getVariants()`, `isPublished()` date checks and `hasEntityAccess`. They are inputs. Children are taken to be keyed by their ids, as lines 152 and 208 presuppose.
- PHP numbers. Weights and deficits are exact `real`s. In PHP they are ints or floats depending on divisibility, and the comparator compares them with `===`. So float rounding, and `0 === 0.0` being false, can order near-ties differently from the model.
- Cookie helper parameters other than name, value and lifetime (path, domain, secure flag).
- Convergence of exposure towards the configured weights over many visits. It depends on hits recorded across requests, which a single-request model cannot state.
- `Ranking.Best`: when entries tie on both deficit and hits, the model picks the earliest. This matches a stable `uasort` (PHP 8); an unstable sort (PHP 7) may pick another tied entry. All other contracts promise only a top-ranked entry.
- `Candidates.LastKeyHits`: when the last child is unpublished, `$variants[$id]` at line 170 reads an undefined key. PHP raises a warning, and under a debug error handler that turns warnings into exceptions the request fails. The model follows the default handler, where the read yields null and adds 0.
- `IndexAction.HasRedirectType`: takes the redirect type to be an integer or null. If the column held a string, `null != ""` would be false and `null != "0"` true at line 62, so the empty string would count as no redirect while `"0"` would redirect with status `"0"`.

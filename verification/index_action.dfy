/**
 * The decision part of `PublicController::indexAction`: which response a
 * landing-page request ends in, which page of an A/B variant group is shown,
 * and which sticky-variant cookie is written. Rendering, hit persistence and
 * URL generation are collaborators: the outcome names what they are asked to
 * do instead of doing it.
 */
module IndexAction {
  import opened Options
  import opened PhpStrings
  import opened Pages
  import opened Candidates
  import opened Ranking

  /** Lifetime of the sticky-variant cookie: 14 days in seconds. */
  const COOKIE_LIFETIME: nat := 3600 * 24 * 14

  datatype Cookie = Cookie(name: string, value: string, lifetime: nat)

  /**
   * A request as the controller sees it: the page its slug resolved to (None
   * when no page matched), whether the logged-in user may view that page,
   * and the request's cookie jar.
   */
  datatype Request = Request(entity: Option<Page>, userAccess: bool, cookies: map<string, string>)

  datatype Outcome =
    | NotFound                                          // 404
    | AccessDenied                                      // 401
    | Redirect(url: string, status: int)                // the page's own redirect
    | RedirectToParent(parentId: Id)                    // 301 to the variant parent's URL
    | Display(pageId: Id, setCookie: Option<Cookie>)    // render this page, optionally set a cookie

  /** The status code the outcome records through `hitPage`. */
  function HitStatus(o: Outcome): int {
    match o
    case NotFound => 404
    case AccessDenied => 401
    case Redirect(_, status) => status
    case RedirectToParent(_) => 301
    case Display(_, _) => 200
  }

  /** Name of the cookie remembering which variant of group `parentId` a visitor saw. */
  function CookieName(parentId: Id): string {
    "mautic_page_" + NatToString(parentId)
  }

  /** `$request->cookies->get(name)`: null when the cookie is absent. */
  function ReadCookie(jar: map<string, string>, name: string): (v: Option<string>)
    ensures v.Some? <==> name in jar
    ensures v.Some? ==> v.value == jar[name]
  {
    if name in jar then Some(jar[name]) else None
  }

  /** `null != $redirectType` is PHP's loose comparison: null and 0 both mean "no redirect". */
  predicate HasRedirectType(rt: Option<int>) {
    rt.Some? && rt.value != 0
  }

  /**
   * The child a non-empty cookie selects: `isset($variants[$cookie])` looks the
   * cookie up as an array key among the published children's entries.
   */
  function StickyChoice(vs: seq<Candidate>, cookie: string): (r: Option<Id>)
    ensures r.Some? ==> ToArrayKey(cookie) == IntKey(r.value) && exists i :: 0 <= i < |vs| && vs[i].id == r.value
    ensures r.None? ==> forall i :: 0 <= i < |vs| ==> ToArrayKey(cookie) != IntKey(vs[i].id)
  {
    match ToArrayKey(cookie)
    case StringKey(_) => None
    case IntKey(n) => if n >= 0 && Lookup(vs, n).Some? then Some(n) else None
  }

  /** The position, among the fresh selection's entries, of the one that is shown and remembered. */
  function FreshChoice(p: Page): (k: nat)
    ensures TopRanked(FreshCandidates(p), TotalHits(p), k)
  {
    FirstRanked(FreshCandidates(p), TotalHits(p))
  }

  /**
   * A/B selection for an anonymous visitor of a variant parent `p`, given the
   * value of its cookie. Without published children the parent is shown. A
   * non-empty cookie is obeyed when it names a published child and otherwise
   * shows the parent; either way nothing is written. Otherwise the parent's
   * entry is added, deficits are computed against the hit total, the first
   * entry of the comparator's order is shown and remembered in the cookie.
   */
  function SelectVariant(p: Page, cookie: Option<string>): (o: Outcome)
    ensures o.Display?
    ensures o.pageId == p.id || exists i :: 0 <= i < |ChildCandidates(p)| && ChildCandidates(p)[i].id == o.pageId
    ensures o.setCookie.Some? <==> |ChildCandidates(p)| > 0 && IsEmpty(cookie)
    ensures o.setCookie.Some? ==>
              o.setCookie.value == Cookie(CookieName(p.id), NatToString(o.pageId), COOKIE_LIFETIME)
  {
    if |p.children| == 0 then Display(p.id, None)
    else
      var vs := ChildCandidates(p);
      if |vs| == 0 then Display(p.id, None)
      else if !IsEmpty(cookie) then
        match StickyChoice(vs, cookie.value)
        case Some(id) => Display(id, None)
        case None => Display(p.id, None)
      else
        var k := FreshChoice(p);
        var useId := FreshCandidates(p)[k].id;
        assert k < |vs| ==> FreshCandidates(p)[k] == vs[k];
        Display(useId, Some(Cookie(CookieName(p.id), NatToString(useId), COOKIE_LIFETIME)))
  }

  /** `indexAction` up to the point where the page to render is known. */
  function Index(req: Request): (o: Outcome)
    ensures o.NotFound? <==> req.entity.None? || req.entity.value.isPreferenceCenter
    ensures o.Redirect? || o.AccessDenied? <==>
              && req.entity.Some?
              && !req.entity.value.isPreferenceCenter
              && !req.entity.value.published
              && !req.userAccess
    ensures o.Redirect? ==> o.url == req.entity.value.redirectUrl && o.status != 0
    ensures o.RedirectToParent? <==>
              && req.entity.Some?
              && !req.entity.value.isPreferenceCenter
              && req.entity.value.published
              && !req.userAccess
              && req.entity.value.variantParent.Some?
    ensures o.RedirectToParent? ==> o.parentId == req.entity.value.variantParent.value
    ensures o.Display? ==> req.entity.Some? && (req.entity.value.variantParent.None? || req.userAccess)
    ensures o.Display? && req.userAccess ==> o == Display(req.entity.value.id, None)
    ensures o.Display? && o.setCookie.Some? ==> !req.userAccess && o.setCookie.value.lifetime == COOKIE_LIFETIME
  {
    match req.entity
    case None => NotFound
    case Some(p) =>
      if p.isPreferenceCenter then NotFound
      else if !p.published && !req.userAccess then
        if HasRedirectType(p.redirectType) then Redirect(p.redirectUrl, p.redirectType.value) else AccessDenied
      else if p.variantParent.Some? && !req.userAccess then RedirectToParent(p.variantParent.value)
      else if req.userAccess then Display(p.id, None)
      else SelectVariant(p, ReadCookie(req.cookies, CookieName(p.id)))
  }
}

/** What `indexAction`'s decisions promise, stated over the model of `IndexAction`. */
module IndexProperties {
  import opened Options
  import opened PhpStrings
  import opened Pages
  import opened Candidates
  import opened Ranking
  import opened IndexAction

  /** Requests that get as far as A/B selection: an anonymous visitor on a published variant parent. */
  predicate ReachesSelection(req: Request) {
    && req.entity.Some?
    && !req.entity.value.isPreferenceCenter
    && req.entity.value.published
    && !req.userAccess
    && req.entity.value.variantParent.None?
  }

  /** The value of the group's sticky cookie in the request, if any. */
  function VariantCookie(req: Request): Option<string>
    requires req.entity.Some?
  {
    ReadCookie(req.cookies, CookieName(req.entity.value.id))
  }

  lemma SelectionReached(req: Request)
    requires ReachesSelection(req)
    ensures Index(req) == SelectVariant(req.entity.value, VariantCookie(req))
  {
  }

  lemma FreshSelectionOutcome(p: Page, cookie: Option<string>)
    requires IsEmpty(cookie) && |ChildCandidates(p)| > 0
    ensures SelectVariant(p, cookie) ==
              Display(FreshCandidates(p)[FreshChoice(p)].id,
                      Some(Cookie(CookieName(p.id), NatToString(FreshCandidates(p)[FreshChoice(p)].id), COOKIE_LIFETIME)))
  {
  }

  predicate HasPublishedChild(p: Page) {
    exists i :: 0 <= i < |p.children| && p.children[i].published
  }

  lemma PublishedChildIffEntries(p: Page)
    ensures HasPublishedChild(p) <==> |ChildCandidates(p)| > 0
  {
    ScanEntriesArePublishedChildren(p.children, p.variantHits);
    if HasPublishedChild(p) {
      var i :| 0 <= i < |p.children| && p.children[i].published;
      assert IsEntryOf(p.children, ChildCandidate(p.children[i]));
    }
    if |ChildCandidates(p)| > 0 {
      assert IsEntryOf(p.children, ChildCandidates(p)[0]);
    }
  }

  /** An unpublished page shown to a visitor without access: its own redirect if it has one, else 401. */
  lemma UnpublishedWithoutAccess(req: Request)
    requires req.entity.Some? && !req.entity.value.isPreferenceCenter
    requires !req.entity.value.published && !req.userAccess
    ensures Index(req) ==
              if HasRedirectType(req.entity.value.redirectType)
              then Redirect(req.entity.value.redirectUrl, req.entity.value.redirectType.value)
              else AccessDenied
  {
  }

  /** A user with access sees the requested page itself, never a selected variant, and gets no cookie. */
  lemma UserAccessSkipsSelection(req: Request)
    requires req.entity.Some? && !req.entity.value.isPreferenceCenter && req.userAccess
    ensures Index(req) == Display(req.entity.value.id, None)
  {
  }

  /**
   * The status code recorded through `hitPage` for each way the request can go:
   * 404 for a missing page or a preference center, the redirect type or 401 for
   * an unpublished page the visitor may not see, 301 for a variant child shown
   * to a visitor without access, and 200 whenever a page is rendered.
   */
  lemma RecordedStatus(req: Request)
    ensures req.entity.None? || req.entity.value.isPreferenceCenter ==> HitStatus(Index(req)) == 404
    ensures req.entity.Some? && !req.entity.value.isPreferenceCenter
            && !req.entity.value.published && !req.userAccess
            ==> HitStatus(Index(req)) ==
                  if HasRedirectType(req.entity.value.redirectType) then req.entity.value.redirectType.value else 401
    ensures req.entity.Some? && !req.entity.value.isPreferenceCenter
            && (req.entity.value.published || req.userAccess)
            ==> HitStatus(Index(req)) ==
                  if req.entity.value.variantParent.Some? && !req.userAccess then 301 else 200
  {
  }

  /** Without published children the parent is shown and no cookie is written, whatever the cookie says. */
  lemma NoPublishedChildrenShowsParent(req: Request)
    requires ReachesSelection(req)
    requires !HasPublishedChild(req.entity.value)
    ensures Index(req) == Display(req.entity.value.id, None)
  {
    PublishedChildIffEntries(req.entity.value);
  }

  /**
   * A non-empty sticky cookie short-circuits selection: nothing is written;
   * the child whose id the cookie spells is shown if it is published, and the
   * parent otherwise (also when the cookie names an unknown or unpublished page).
   */
  lemma StickyCookieIsObeyed(req: Request)
    requires ReachesSelection(req) && WellFormed(req.entity.value)
    requires !IsEmpty(VariantCookie(req))
    ensures Index(req).Display? && Index(req).setCookie.None?
    ensures forall i :: 0 <= i < |req.entity.value.children| && req.entity.value.children[i].published
                        && VariantCookie(req).value == NatToString(req.entity.value.children[i].id)
                        ==> Index(req).pageId == req.entity.value.children[i].id
    ensures (forall i :: 0 <= i < |req.entity.value.children| && req.entity.value.children[i].published
                         ==> VariantCookie(req).value != NatToString(req.entity.value.children[i].id))
            ==> Index(req).pageId == req.entity.value.id
  {
    var p := req.entity.value;
    var cookie := VariantCookie(req).value;
    SelectionReached(req);
    StickyOutcome(p, VariantCookie(req));
    StickyChoiceOfChildren(p, cookie);
  }

  /** With a non-empty cookie, selection shows what the cookie selects, or the parent. */
  lemma StickyOutcome(p: Page, cookie: Option<string>)
    requires !IsEmpty(cookie)
    ensures SelectVariant(p, cookie) ==
              Display(match StickyChoice(ChildCandidates(p), cookie.value)
                      case Some(id) => id
                      case None => p.id, None)
  {
  }

  /** The cookie selects the published child whose id it spells, and nothing when it spells none. */
  lemma StickyChoiceOfChildren(p: Page, cookie: string)
    requires WellFormed(p)
    ensures forall i :: 0 <= i < |p.children| && p.children[i].published && cookie == NatToString(p.children[i].id)
                        ==> StickyChoice(ChildCandidates(p), cookie) == Some(p.children[i].id)
    ensures (forall i :: 0 <= i < |p.children| && p.children[i].published ==> cookie != NatToString(p.children[i].id))
            ==> StickyChoice(ChildCandidates(p), cookie).None?
  {
    var vs := ChildCandidates(p);
    ScanEntriesArePublishedChildren(p.children, p.variantHits);
    forall i | 0 <= i < |p.children| && p.children[i].published && cookie == NatToString(p.children[i].id)
      ensures StickyChoice(vs, cookie) == Some(p.children[i].id)
    {
      var c := ChildCandidate(p.children[i]);
      assert IsEntryOf(p.children, c);
      KeyOfIdIff(cookie, p.children[i].id);
      assert Lookup(vs, c.id).Some?;
    }
    if StickyChoice(vs, cookie).Some? {
      var id := StickyChoice(vs, cookie).value;
      var k :| 0 <= k < |vs| && vs[k].id == id;
      assert IsEntryOf(p.children, vs[k]);
      var i :| 0 <= i < |p.children| && p.children[i].published && vs[k] == ChildCandidate(p.children[i]);
      KeyOfIdIff(cookie, p.children[i].id);
    }
  }

  /**
   * A fresh selection (empty cookie, some published child) shows the entry
   * with the greatest deficit and, among those, the fewest hits, and writes
   * its id into the group's cookie for 14 days.
   */
  lemma FreshSelectionPicksLargestDeficit(req: Request)
    requires ReachesSelection(req)
    requires IsEmpty(VariantCookie(req))
    requires HasPublishedChild(req.entity.value)
    ensures Index(req).Display?
    ensures Index(req).setCookie ==
              Some(Cookie(CookieName(req.entity.value.id), NatToString(Index(req).pageId), COOKIE_LIFETIME))
    ensures exists k :: TopRanked(FreshCandidates(req.entity.value), TotalHits(req.entity.value), k)
                        && FreshCandidates(req.entity.value)[k].id == Index(req).pageId
  {
    var p := req.entity.value;
    PublishedChildIffEntries(p);
    SelectionReached(req);
    FreshSelectionOutcome(p, VariantCookie(req));
    var k := FreshChoice(p);
    assert TopRanked(FreshCandidates(p), TotalHits(p), k);
  }

  /** On a cold start (hit total 0) the chosen entry has the largest weight. */
  lemma ColdStartPicksHeaviest(req: Request)
    requires ReachesSelection(req)
    requires IsEmpty(VariantCookie(req))
    requires HasPublishedChild(req.entity.value)
    requires TotalHits(req.entity.value) == 0
    ensures exists k :: 0 <= k < |FreshCandidates(req.entity.value)|
                        && FreshCandidates(req.entity.value)[k].id == Index(req).pageId
                        && forall j :: 0 <= j < |FreshCandidates(req.entity.value)| ==>
                             FreshCandidates(req.entity.value)[j].weight <= FreshCandidates(req.entity.value)[k].weight
  {
    FreshSelectionPicksLargestDeficit(req);
    var p := req.entity.value;
    var cs := FreshCandidates(p);
    var k :| TopRanked(cs, 0, k) && cs[k].id == Index(req).pageId;
    assert forall j :: 0 <= j < |cs| ==> Deficit(cs[j], 0) == cs[j].weight;
  }

  /** Every entry of a well-formed group carries a valid child id, never the parent's. */
  lemma EntryIds(p: Page)
    requires WellFormed(p)
    ensures forall i :: 0 <= i < |ChildCandidates(p)| ==>
              ValidId(ChildCandidates(p)[i].id) && ChildCandidates(p)[i].id != p.id
  {
    var vs := ChildCandidates(p);
    ScanEntriesArePublishedChildren(p.children, p.variantHits);
    forall i | 0 <= i < |vs|
      ensures ValidId(vs[i].id) && vs[i].id != p.id
    {
      assert IsEntryOf(p.children, vs[i]);
    }
  }

  /** The decimal form of a shown id selects that id again: the child itself, or nothing for the parent. */
  lemma StickyChoiceOfShownId(p: Page, u: Id)
    requires WellFormed(p)
    requires u == p.id || exists i :: 0 <= i < |ChildCandidates(p)| && ChildCandidates(p)[i].id == u
    ensures u == p.id ==> StickyChoice(ChildCandidates(p), NatToString(u)).None?
    ensures u != p.id ==> StickyChoice(ChildCandidates(p), NatToString(u)) == Some(u)
  {
    var vs := ChildCandidates(p);
    EntryIds(p);
    if u == p.id {
      forall i | 0 <= i < |vs|
        ensures ToArrayKey(NatToString(u)) != IntKey(vs[i].id)
      {
        KeyOfIdIff(NatToString(u), vs[i].id);
      }
    } else {
      KeyOfIdIff(NatToString(u), u);
      assert Lookup(vs, u).Some?;
    }
  }

  /**
   * The cookie a fresh selection writes makes the choice sticky: the same
   * request carrying that cookie shows the same page and writes nothing.
   */
  lemma StickyRoundTrip(req: Request)
    requires ReachesSelection(req) && WellFormed(req.entity.value)
    requires IsEmpty(VariantCookie(req))
    requires HasPublishedChild(req.entity.value)
    ensures Index(req).Display? && Index(req).setCookie.Some?
    ensures var c := Index(req).setCookie.value;
            Index(req.(cookies := req.cookies[c.name := c.value])) == Display(Index(req).pageId, None)
  {
    var p := req.entity.value;
    PublishedChildIffEntries(p);
    SelectionReached(req);
    var u := Index(req).pageId;
    var c := Index(req).setCookie.value;
    var req' := req.(cookies := req.cookies[c.name := c.value]);
    assert c == Cookie(CookieName(p.id), NatToString(u), COOKIE_LIFETIME);
    assert VariantCookie(req') == Some(NatToString(u));
    EntryIds(p);
    assert ValidId(u);
    IdStringEmptyIff(u);
    SelectionReached(req');
    StickyOutcome(p, Some(NatToString(u)));
    StickyChoiceOfShownId(p, u);
  }
}

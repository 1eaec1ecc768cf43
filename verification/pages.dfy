/**
 * Value snapshots of the page entities that `PublicController::indexAction`
 * reads. Publication flags already account for publish-up/down dates, and
 * hit counters are the `variantHits` columns as loaded for the request.
 */
module Pages {
  import opened Options
  import PhpStrings

  type Id = nat

  /** A translation of a page: only its publication flag and variant hits matter here. */
  datatype Translation = Translation(published: bool, variantHits: nat)

  /**
   * A variant child of a page, as the parent's `getVariants()` lists it, keyed by
   * its id. `weightPercent` is the 'weight' entry of its variant settings; nothing
   * in the controller bounds it.
   */
  datatype Child = Child(
    id: Id,
    published: bool,
    weightPercent: int,
    variantHits: nat,
    translations: seq<Translation>)

  /**
   * The page a slug resolved to. `variantParent` is the id of the page this one
   * is a variant of (None when the page is its own variant parent); `children`
   * are its own variant children in the order the controller iterates them.
   * `redirectType` is None for a null column.
   */
  datatype Page = Page(
    id: Id,
    isPreferenceCenter: bool,
    published: bool,
    redirectType: Option<int>,
    redirectUrl: string,
    variantParent: Option<Id>,
    variantHits: nat,
    translations: seq<Translation>,
    children: seq<Child>)

  /** Sum of the variant hits of every translation, published or not. */
  function AllTranslationHits(ts: seq<Translation>): nat
    decreases |ts|
  {
    if |ts| == 0 then 0 else AllTranslationHits(ts[..|ts| - 1]) + ts[|ts| - 1].variantHits
  }

  /** The published translations, in their original order. */
  function PublishedOnly(ts: seq<Translation>): (r: seq<Translation>)
    ensures forall i :: 0 <= i < |r| ==> r[i].published
    ensures |r| <= |ts|
    decreases |ts|
  {
    if |ts| == 0 then []
    else
      var last := ts[|ts| - 1];
      assert ts == ts[..|ts| - 1] + [last];
      PublishedOnly(ts[..|ts| - 1]) + (if last.published then [last] else [])
  }

  /** The filter keeps exactly the published translations. */
  lemma {:induction false} PublishedOnlyMembers(ts: seq<Translation>)
    ensures forall t :: t in PublishedOnly(ts) <==> t in ts && t.published
    decreases |ts|
  {
    if |ts| > 0 {
      var prefix := ts[..|ts| - 1];
      PublishedOnlyMembers(prefix);
      assert ts == prefix + [ts[|ts| - 1]];
    }
  }

  lemma AllTranslationHitsOfAppend(ts: seq<Translation>, t: Translation)
    ensures AllTranslationHits(ts + [t]) == AllTranslationHits(ts) + t.variantHits
  {
    assert (ts + [t])[..|ts|] == ts;
  }

  /** The hits the controller folds into a variant from its published translations. */
  function PublishedTranslationHits(ts: seq<Translation>): (h: nat)
    ensures h <= AllTranslationHits(ts)
    ensures (forall i :: 0 <= i < |ts| ==> ts[i].published) ==> h == AllTranslationHits(ts)
    ensures (forall i :: 0 <= i < |ts| ==> !ts[i].published) ==> h == 0
    decreases |ts|
  {
    if |ts| == 0 then 0
    else
      var last := ts[|ts| - 1];
      PublishedTranslationHits(ts[..|ts| - 1]) + (if last.published then last.variantHits else 0)
  }

  /** The folded-in hits are exactly the hits of the published translations. */
  lemma {:induction false} PublishedHitsAreFilteredHits(ts: seq<Translation>)
    ensures PublishedTranslationHits(ts) == AllTranslationHits(PublishedOnly(ts))
    decreases |ts|
  {
    if |ts| > 0 {
      var prefix := ts[..|ts| - 1];
      var last := ts[|ts| - 1];
      PublishedHitsAreFilteredHits(prefix);
      if last.published {
        AllTranslationHitsOfAppend(PublishedOnly(prefix), last);
      } else {
        assert PublishedOnly(ts) == PublishedOnly(prefix);
      }
    }
  }

  /** Ids are database keys: positive, unique among the variant group, and fit a PHP integer. */
  predicate ValidId(id: Id) {
    0 < id <= PhpStrings.PHP_INT_MAX
  }

  predicate WellFormed(p: Page) {
    && ValidId(p.id)
    && (forall i :: 0 <= i < |p.children| ==> ValidId(p.children[i].id) && p.children[i].id != p.id)
    && (forall i, j :: 0 <= i < j < |p.children| ==> p.children[i].id != p.children[j].id)
  }
}

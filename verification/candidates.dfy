/**
 * Construction of the `$variants` array of `indexAction`: one entry per
 * published child (weight and hits), the parent's residual entry, and the
 * running hit total used to turn hits into observed shares.
 */
module Candidates {
  import opened Options
  import opened Pages

  /** One entry of `$variants`: its key, its target weight as a fraction, and its hits. */
  datatype Candidate = Candidate(id: Id, weight: real, hits: nat)

  function SumHits(cs: seq<Candidate>): nat
    decreases |cs|
  {
    if |cs| == 0 then 0 else SumHits(cs[..|cs| - 1]) + cs[|cs| - 1].hits
  }

  function SumWeight(cs: seq<Candidate>): real
    decreases |cs|
  {
    if |cs| == 0 then 0.0 else SumWeight(cs[..|cs| - 1]) + cs[|cs| - 1].weight
  }

  lemma SumsOfAppend(cs: seq<Candidate>, c: Candidate)
    ensures SumHits(cs + [c]) == SumHits(cs) + c.hits
    ensures SumWeight(cs + [c]) == SumWeight(cs) + c.weight
  {
    assert (cs + [c])[..|cs|] == cs;
  }

  /**
   * The entry a published child contributes: its weight setting as a fraction,
   * and its own variant hits plus those of its published translations.
   */
  function ChildCandidate(c: Child): (r: Candidate)
    ensures r.id == c.id
    ensures 100.0 * r.weight == c.weightPercent as real
    ensures r.hits == c.variantHits + AllTranslationHits(PublishedOnly(c.translations))
    ensures c.variantHits <= r.hits <= c.variantHits + AllTranslationHits(c.translations)
    ensures (forall i :: 0 <= i < |c.translations| ==> !c.translations[i].published) ==> r.hits == c.variantHits
  {
    PublishedHitsAreFilteredHits(c.translations);
    Candidate(c.id, c.weightPercent as real / 100.0, c.variantHits + PublishedTranslationHits(c.translations))
  }

  /** The positions of the published children. */
  function PublishedIndices(children: seq<Child>): set<int> {
    set i | 0 <= i < |children| && children[i].published
  }

  /** The state of the loop over the children: entries so far, summed weight settings, hit total. */
  datatype ChildScan = ChildScan(variants: seq<Candidate>, weightPercentSum: int, totalHits: nat)

  /**
   * The loop over the children, starting from a hit total of `startHits`: each
   * published child adds its entry, adds its weight setting to the running
   * sum, and adds its hits to the total; unpublished children are skipped.
   */
  function ScanChildren(children: seq<Child>, startHits: nat): (r: ChildScan)
    ensures r.totalHits == startHits + SumHits(r.variants)
    ensures r.weightPercentSum as real == 100.0 * SumWeight(r.variants)
    ensures |r.variants| == |PublishedIndices(children)|
    ensures |r.variants| <= |children|
    decreases |children|
  {
    if |children| == 0 then
      assert PublishedIndices(children) == {};
      ChildScan([], 0, startHits)
    else
      var last := children[|children| - 1];
      var r0 := ScanChildren(children[..|children| - 1], startHits);
      assert PublishedIndices(children) == PublishedIndices(children[..|children| - 1])
        + (if last.published then {|children| - 1} else {});
      if last.published then
        var entry := ChildCandidate(last);
        SumsOfAppend(r0.variants, entry);
        ChildScan(r0.variants + [entry], r0.weightPercentSum + last.weightPercent, r0.totalHits + entry.hits)
      else
        r0
  }

  /** `c` is the entry of some published child. */
  predicate IsEntryOf(children: seq<Child>, c: Candidate) {
    exists j :: 0 <= j < |children| && children[j].published && c == ChildCandidate(children[j])
  }

  /** One step of the loop, as a statement about the stored entries only. */
  lemma ScanStep(children: seq<Child>, startHits: nat)
    requires |children| > 0
    ensures ScanChildren(children, startHits).variants
      == ScanChildren(children[..|children| - 1], startHits).variants
        + (if children[|children| - 1].published then [ChildCandidate(children[|children| - 1])] else [])
  {
  }

  /** Appending the last child's entry (when published) extends "entry of" by that child. */
  lemma EntriesStep(children: seq<Child>, before: seq<Candidate>, after: seq<Candidate>)
    requires |children| > 0
    requires forall c :: c in before <==> IsEntryOf(children[..|children| - 1], c)
    requires after == before
      + (if children[|children| - 1].published then [ChildCandidate(children[|children| - 1])] else [])
    ensures forall c :: c in after <==> IsEntryOf(children, c)
  {
    var prefix := children[..|children| - 1];
    var last := children[|children| - 1];
    forall c | IsEntryOf(prefix, c)
      ensures IsEntryOf(children, c)
    {
      var j :| 0 <= j < |prefix| && prefix[j].published && c == ChildCandidate(prefix[j]);
      assert children[j] == prefix[j];
    }
    forall c | IsEntryOf(children, c)
      ensures IsEntryOf(prefix, c) || (last.published && c == ChildCandidate(last))
    {
      var j :| 0 <= j < |children| && children[j].published && c == ChildCandidate(children[j]);
      if j < |prefix| {
        assert prefix[j] == children[j];
      }
    }
    if last.published {
      assert IsEntryOf(children, ChildCandidate(last)) by {
        assert children[|children| - 1] == last;
      }
    }
  }

  /** The loop stores exactly the entries of the published children. */
  lemma {:induction false} ScanEntriesArePublishedChildren(children: seq<Child>, startHits: nat)
    ensures forall c :: c in ScanChildren(children, startHits).variants <==> IsEntryOf(children, c)
    decreases |children|
  {
    if |children| == 0 {
      assert ScanChildren(children, startHits).variants == [];
    } else {
      ScanEntriesArePublishedChildren(children[..|children| - 1], startHits);
      ScanStep(children, startHits);
      EntriesStep(children, ScanChildren(children[..|children| - 1], startHits).variants,
                  ScanChildren(children, startHits).variants);
    }
  }

  /** The entries of all published children, in iteration order. */
  function ChildCandidates(p: Page): seq<Candidate> {
    ScanChildren(p.children, p.variantHits).variants
  }

  /**
   * The parent's entry, added only on a fresh selection: it receives whatever
   * weight the published children leave over (not clamped at zero), and its
   * own hits plus those of its published translations.
   */
  function ParentCandidate(p: Page): (r: Candidate)
    ensures r.id == p.id
    ensures r.weight == 1.0 - SumWeight(ChildCandidates(p))
    ensures r.hits == p.variantHits + AllTranslationHits(PublishedOnly(p.translations))
    ensures p.variantHits <= r.hits <= p.variantHits + AllTranslationHits(p.translations)
  {
    var scan := ScanChildren(p.children, p.variantHits);
    PublishedHitsAreFilteredHits(p.translations);
    Candidate(p.id, (100 - scan.weightPercentSum) as real / 100.0,
              p.variantHits + PublishedTranslationHits(p.translations))
  }

  /** The `$variants` array of a fresh selection: published children first, then the parent. */
  function FreshCandidates(p: Page): (cs: seq<Candidate>)
    ensures |cs| == |ChildCandidates(p)| + 1
    ensures cs[..|cs| - 1] == ChildCandidates(p)
    ensures cs[|cs| - 1] == ParentCandidate(p)
    ensures SumWeight(cs) == 1.0
    ensures SumHits(cs) == SumHits(ChildCandidates(p)) + ParentCandidate(p).hits
  {
    var cs := ChildCandidates(p) + [ParentCandidate(p)];
    SumsOfAppend(ChildCandidates(p), ParentCandidate(p));
    cs
  }

  /** PHP's `$variants[$id]`: the entry stored under key `id`, if any. */
  function Lookup(cs: seq<Candidate>, id: Id): (r: Option<Candidate>)
    ensures r.Some? ==> r.value in cs && r.value.id == id
    ensures r.None? <==> forall i :: 0 <= i < |cs| ==> cs[i].id != id
    decreases |cs|
  {
    if |cs| == 0 then None
    else if cs[0].id == id then Some(cs[0])
    else Lookup(cs[1..], id)
  }

  /**
   * The amount added to the hit total after the parent entry is built: the
   * hits stored in `$variants` under the LAST child key the children loop
   * visited, 0 when nothing is stored there (an unpublished last child).
   */
  function LastKeyHits(p: Page): nat {
    if |p.children| == 0 then 0
    else
      match Lookup(FreshCandidates(p), p.children[|p.children| - 1].id)
      case None => 0
      case Some(c) => c.hits
  }

  /** `$totalHits` as the deficit loop sees it on a fresh selection. */
  function TotalHits(p: Page): nat {
    ScanChildren(p.children, p.variantHits).totalHits + LastKeyHits(p)
  }

  /** The hits of the last child when it is published, 0 otherwise. */
  function LastChildHits(p: Page): nat {
    if |p.children| > 0 && p.children[|p.children| - 1].published
    then ChildCandidate(p.children[|p.children| - 1]).hits
    else 0
  }

  /** With unique keys, the lookup under the last child key finds that child's own entry, or nothing. */
  lemma LastKeyHitsIsLastChild(p: Page)
    requires WellFormed(p)
    ensures LastKeyHits(p) == LastChildHits(p)
  {
    if |p.children| > 0 {
      var n := |p.children| - 1;
      var last := p.children[n];
      var vs := ChildCandidates(p);
      var cs := FreshCandidates(p);
      assert cs == vs + [ParentCandidate(p)];
      ScanEntriesArePublishedChildren(p.children, p.variantHits);
      var found := Lookup(cs, last.id);
      if found.Some? {
        var c := found.value;
        assert c != ParentCandidate(p) by {
          assert p.children[n].id != p.id;
        }
        assert c in vs;
        var j :| 0 <= j < |p.children| && p.children[j].published && c == ChildCandidate(p.children[j]);
        assert p.children[j].id == p.children[n].id;
        assert j == n;
      } else {
        assert !IsEntryOf(p.children, ChildCandidate(last));
      }
    }
  }

  /**
   * The hit total as written: the parent's own hits (without its translations),
   * every published child's hits, and once more the hits of the last child
   * if it is published.
   */
  lemma {:induction false} TotalHitsAsWritten(p: Page)
    requires WellFormed(p)
    ensures TotalHits(p) == p.variantHits + SumHits(ChildCandidates(p)) + LastChildHits(p)
    ensures TotalHits(p) + PublishedTranslationHits(p.translations) == SumHits(FreshCandidates(p)) + LastChildHits(p)
  {
    LastKeyHitsIsLastChild(p);
  }
}

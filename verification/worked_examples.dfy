/** Concrete variant groups and what the model decides for them. */
module WorkedExamples {
  import opened Options
  import opened PhpStrings
  import opened Pages
  import opened Candidates
  import opened Ranking
  import opened IndexAction
  import opened IndexProperties

  /** A published variant parent with no translations and no cookie. */
  function Group(parentHits: nat, children: seq<Child>): Page {
    Page(1, false, true, None, "", None, parentHits, [], children)
  }

  function Visit(p: Page): Request {
    Request(Some(p), false, map[])
  }

  /** Parent residual 40%, child 2 at 30% with 10 hits, child 3 at 30% with 5 hits. */
  const ThreeWay: Page := Group(0, [Child(2, true, 30, 10, []), Child(3, true, 30, 5, [])])

  lemma ThreeWayEntries()
    ensures FreshCandidates(ThreeWay) == [Candidate(2, 0.3, 10), Candidate(3, 0.3, 5), Candidate(1, 0.4, 0)]
  {
    assert ScanChildren(ThreeWay.children[..1], 0) == ChildScan([Candidate(2, 0.3, 10)], 30, 10);
    assert ScanChildren(ThreeWay.children, 0) == ChildScan([Candidate(2, 0.3, 10), Candidate(3, 0.3, 5)], 60, 15);
    assert ParentCandidate(ThreeWay) == Candidate(1, 0.4, 0);
  }

  /** The hit total counts the last child twice: 0 + 10 + 5 + 5 = 20, not 15. */
  lemma ThreeWayTotal()
    ensures TotalHits(ThreeWay) == 20
  {
    assert ChildCandidates(ThreeWay) == [Candidate(2, 0.3, 10), Candidate(3, 0.3, 5)];
    assert LastChildHits(ThreeWay) == 5;
    TotalHitsAsWritten(ThreeWay);
  }

  /** Deficits are -0.2, 0.05 and 0.4, so the parent's entry ranks first. */
  lemma ThreeWayRanking()
    ensures FreshChoice(ThreeWay) == 2
  {
    ThreeWayEntries();
    ThreeWayTotal();
    var cs := FreshCandidates(ThreeWay);
    assert Deficit(cs[0], 20) == -0.2;
    assert Deficit(cs[1], 20) == 0.05;
    assert Deficit(cs[2], 20) == 0.4;
    assert TopRanked(cs, 20, FreshChoice(ThreeWay));
  }

  /** A first visit to the three-way group shows the parent and remembers it. */
  lemma ThreeWayGroup()
    ensures Index(Visit(ThreeWay)) == Display(1, Some(Cookie("mautic_page_1", "1", 1209600)))
  {
    ThreeWayEntries();
    ThreeWayRanking();
    assert ReachesSelection(Visit(ThreeWay));
    SelectionReached(Visit(ThreeWay));
    assert VariantCookie(Visit(ThreeWay)) == None;
    assert Index(Visit(ThreeWay)) == SelectVariant(ThreeWay, None);
    FreshSelectionOutcome(ThreeWay, None);
    assert FreshCandidates(ThreeWay)[FreshChoice(ThreeWay)].id == 1;
    assert NatToString(1) == "1";
    assert CookieName(1) == "mautic_page_1";
  }

  /** Children weighted 70% and 60% leave the parent a weight of -30%: nothing clamps it. */
  lemma OverweightChildren()
    ensures ParentCandidate(Group(0, [Child(2, true, 70, 0, []), Child(3, true, 60, 0, [])])).weight == -0.3
  {
    var p := Group(0, [Child(2, true, 70, 0, []), Child(3, true, 60, 0, [])]);
    assert ChildCandidates(p) == [Candidate(2, 0.7, 0), Candidate(3, 0.6, 0)];
  }

  /**
   * The hit total decides the choice. Parent 60% with 5 hits, one child at 40%
   * with 3 hits: the total as written is 11 (the child counted twice), which
   * ranks the parent first; against the entries' own total of 8 the child
   * would rank first.
   */
  lemma TotalHitsChangesChoice()
    ensures var p := Group(5, [Child(2, true, 40, 3, [])]);
            && TotalHits(p) == 11
            && SumHits(FreshCandidates(p)) == 8
            && Index(Visit(p)).pageId == 1
            && FreshCandidates(p)[FirstRanked(FreshCandidates(p), 8)].id == 2
  {
    var p := Group(5, [Child(2, true, 40, 3, [])]);
    var cs := FreshCandidates(p);
    assert cs == [Candidate(2, 0.4, 3), Candidate(1, 0.6, 5)];
    assert Deficit(cs[0], 11) < Deficit(cs[1], 11);
    assert Deficit(cs[1], 8) < Deficit(cs[0], 8);
  }

  /** Parent with 4 hits, child 2 published with 6 hits, child 3 unpublished with 9 hits. */
  const HiddenLast: Page := Group(4, [Child(2, true, 50, 6, []), Child(3, false, 50, 9, [])])

  /** An unpublished last child adds nothing to the hit total: 4 + 6, not 4 + 6 + 9. */
  lemma UnpublishedLastChild()
    ensures TotalHits(HiddenLast) == 10
  {
    assert ScanChildren(HiddenLast.children[..1], 4) == ChildScan([Candidate(2, 0.5, 6)], 50, 10);
    assert ChildCandidates(HiddenLast) == [Candidate(2, 0.5, 6)];
    assert LastChildHits(HiddenLast) == 0;
    TotalHitsAsWritten(HiddenLast);
  }
}

/**
 * The deficit computation and the ordering of `$variants`: each entry's
 * `weight_deficit`, the comparator handed to `uasort`, and the entry that
 * ends up first.
 */
module Ranking {
  import opened Pages
  import opened Candidates

  /** A `$variants` entry after the deficit loop: its key, its hits and its `weight_deficit`. */
  datatype Scored = Scored(id: Id, hits: nat, deficit: real)

  /**
   * Target weight minus observed share: `weight - hits / totalHits`, or just
   * the weight when the hit total is 0 (a falsy total in the source).
   */
  function Deficit(c: Candidate, totalHits: nat): (d: real)
    ensures d <= c.weight
    ensures d == c.weight <==> totalHits == 0 || c.hits == 0
    ensures totalHits != 0 ==> d * totalHits as real == c.weight * totalHits as real - c.hits as real
  {
    if totalHits != 0 then c.weight - c.hits as real / totalHits as real else c.weight
  }

  /** The deficit loop: every entry keeps its key and hits and gains its deficit. */
  function Score(cs: seq<Candidate>, totalHits: nat): (r: seq<Scored>)
    ensures |r| == |cs|
    ensures forall i :: 0 <= i < |cs| ==>
              r[i].id == cs[i].id && r[i].hits == cs[i].hits && r[i].deficit == Deficit(cs[i], totalHits)
  {
    seq(|cs|, i requires 0 <= i < |cs| => Scored(cs[i].id, cs[i].hits, Deficit(cs[i], totalHits)))
  }

  function SumDeficit(ss: seq<Scored>): real
    decreases |ss|
  {
    if |ss| == 0 then 0.0 else SumDeficit(ss[..|ss| - 1]) + ss[|ss| - 1].deficit
  }

  lemma AddShares(a: real, b: real, t: real)
    requires t != 0.0
    ensures a / t + b / t == (a + b) / t
  {
  }

  /** Deficits add up to the total weight minus the share of the hit total the entries account for. */
  lemma {:induction false} DeficitSum(cs: seq<Candidate>, totalHits: nat)
    ensures SumDeficit(Score(cs, totalHits))
            == SumWeight(cs) - (if totalHits != 0 then SumHits(cs) as real / totalHits as real else 0.0)
    decreases |cs|
  {
    if |cs| > 0 {
      var n := |cs| - 1;
      var ss := Score(cs, totalHits);
      DeficitSum(cs[..n], totalHits);
      assert ss[..n] == Score(cs[..n], totalHits);
      assert SumDeficit(ss) == SumDeficit(ss[..n]) + Deficit(cs[n], totalHits);
      assert SumWeight(cs) == SumWeight(cs[..n]) + cs[n].weight;
      assert SumHits(cs) == SumHits(cs[..n]) + cs[n].hits;
      if totalHits != 0 {
        AddShares(SumHits(cs[..n]) as real, cs[n].hits as real, totalHits as real);
      }
    }
  }

  /**
   * The `uasort` comparator: greater deficit first; on equal deficits fewer
   * hits first; equal deficit and hits compare as 0. Deficits are exact reals
   * here, so equality is the mathematical one.
   */
  function Compare(a: Scored, b: Scored): (r: int)
    ensures r == -1 || r == 0 || r == 1
    ensures r <= 0 <==> a.deficit > b.deficit || (a.deficit == b.deficit && a.hits <= b.hits)
    ensures r == 0 <==> a.deficit == b.deficit && a.hits == b.hits
  {
    if a.deficit == b.deficit then
      if a.hits == b.hits then 0 else if a.hits < b.hits then -1 else 1
    else if a.deficit > b.deficit then -1 else 1
  }

  /** The comparator is a total preorder, so sorting with it is well defined up to ties. */
  lemma CompareIsTotalPreorder(a: Scored, b: Scored, c: Scored)
    ensures Compare(a, b) == -Compare(b, a)
    ensures Compare(a, b) <= 0 && Compare(b, c) <= 0 ==> Compare(a, c) <= 0
    ensures Compare(a, a) == 0
  {
  }

  /**
   * The index of the entry `uasort` moves to the front and `key()` then
   * reads: maximal deficit, and fewest hits among those. Of several such
   * entries this is the earliest, which is what a stable sort yields.
   */
  function Best(ss: seq<Scored>): (k: nat)
    requires |ss| > 0
    ensures k < |ss|
    ensures forall j :: 0 <= j < |ss| ==> ss[j].deficit <= ss[k].deficit
    ensures forall j :: 0 <= j < |ss| && ss[j].deficit == ss[k].deficit ==> ss[k].hits <= ss[j].hits
    ensures forall j :: 0 <= j < k ==> Compare(ss[j], ss[k]) > 0
    decreases |ss|
  {
    if |ss| == 1 then 0
    else
      var n := |ss| - 1;
      var k := Best(ss[..n]);
      if Compare(ss[n], ss[k]) < 0 then n else k
  }

  /** Entry `k` has the greatest deficit, and the fewest hits among entries with that deficit. */
  predicate TopRanked(cs: seq<Candidate>, totalHits: nat, k: int) {
    && 0 <= k < |cs|
    && (forall j :: 0 <= j < |cs| ==> Deficit(cs[j], totalHits) <= Deficit(cs[k], totalHits))
    && (forall j :: 0 <= j < |cs| && Deficit(cs[j], totalHits) == Deficit(cs[k], totalHits) ==> cs[k].hits <= cs[j].hits)
  }

  /** The entry the sort puts first when the entries `cs` are ranked against `totalHits`. */
  function FirstRanked(cs: seq<Candidate>, totalHits: nat): (k: nat)
    requires |cs| > 0
    ensures TopRanked(cs, totalHits, k)
  {
    Best(Score(cs, totalHits))
  }

  /**
   * Over a fresh selection's entries the deficits add up to 1 minus the share
   * of the hit total the entries account for; they add up to 0 only when the
   * hit total equals the entries' own hits.
   */
  lemma FreshDeficitsSum(p: Page)
    ensures SumDeficit(Score(FreshCandidates(p), TotalHits(p)))
            == 1.0 - (if TotalHits(p) != 0 then SumHits(FreshCandidates(p)) as real / TotalHits(p) as real else 0.0)
  {
    DeficitSum(FreshCandidates(p), TotalHits(p));
  }
}

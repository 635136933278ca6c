/**
 Calorimeter clustering: hits above a threshold are collected by sector, and each sector whose most
 energetic hit passes the seed threshold becomes one cluster.
 */
module Clustering {
  import opened MachineInts

  datatype CaloHit = CaloHit(e: real, sector: int, x: int, y: int)

  /** `x` and `y` are absent where their weights sum to zero: the division then gives no number. */
  datatype Cluster = Cluster(sector: int, e: real, eSeed: real, nHits: nat, nHitsNearSeed: nat,
                             x: Option<real>, y: Option<real>, hits: seq<CaloHit>)

  /** The thresholds, the weight offset, and the logarithm of an energy ratio, a parameter of the model. */
  datatype Parameters = Parameters(hitThr: real, seedThr: real, w0: real, logRatio: (real, real) -> real)

  const LOWEST_MAXIMUM := -99999.0

  // ---- One cluster --------------------------------------------------------------------------

  function EnergySum(hits: seq<CaloHit>): real {
    if hits == [] then 0.0 else EnergySum(hits[..|hits| - 1]) + hits[|hits| - 1].e
  }

  function Weight(h: CaloHit, total: real, p: Parameters): (w: real)
    ensures w >= 0.0 && w >= p.w0 + p.logRatio(h.e, total)
    ensures w == 0.0 || w == p.w0 + p.logRatio(h.e, total)
  {
    var w := p.w0 + p.logRatio(h.e, total);
    if w > 0.0 then w else 0.0
  }

  function WeightSum(hits: seq<CaloHit>, total: real, p: Parameters): (s: real)
    ensures s >= 0.0
  {
    if hits == [] then 0.0 else WeightSum(hits[..|hits| - 1], total, p) + Weight(hits[|hits| - 1], total, p)
  }

  function Times(a: int, w: real): real { a as real * w }

  function XOf(h: CaloHit): int { h.x }

  function YOf(h: CaloHit): int { h.y }

  function Weighted(hits: seq<CaloHit>, total: real, p: Parameters, coordinate: CaloHit -> int): real {
    if hits == [] then 0.0
    else
      var last := hits[|hits| - 1];
      Weighted(hits[..|hits| - 1], total, p, coordinate) + Times(coordinate(last), Weight(last, total, p))
  }

  predicate NearSeed(h: CaloHit, seed: CaloHit) {
    -1 <= h.x - seed.x <= 1 && -1 <= h.y - seed.y <= 1
  }

  function CountNear(hits: seq<CaloHit>, seed: CaloHit): nat {
    if hits == [] then 0 else CountNear(hits[..|hits| - 1], seed) + if NearSeed(hits[|hits| - 1], seed) then 1 else 0
  }

  function Mean(num: real, den: real): Option<real> {
    if den == 0.0 then None else Some(num / den)
  }

  function ClusterOf(seed: CaloHit, hits: seq<CaloHit>, p: Parameters): Cluster {
    var total := EnergySum(hits);
    var den := WeightSum(hits, total, p);
    Cluster(seed.sector, total, seed.e, |hits|, CountNear(hits, seed),
            Mean(Weighted(hits, total, p, XOf), den), Mean(Weighted(hits, total, p, YOf), den), hits)
  }

  /** A weighted sum of coordinates between two bounds lies between the bounds times the weights. */
  lemma {:induction false} WeightedBounds(hits: seq<CaloHit>, total: real, p: Parameters, coordinate: CaloHit -> int,
                                          lo: int, hi: int)
    requires forall i :: 0 <= i < |hits| ==> lo <= coordinate(hits[i]) <= hi
    ensures Times(lo, WeightSum(hits, total, p)) <= Weighted(hits, total, p, coordinate)
                <= Times(hi, WeightSum(hits, total, p))
  {
    hide Weight, Times;
    if hits == [] {
      TimesZero(lo);
      TimesZero(hi);
    } else {
      var before, h := hits[..|hits| - 1], hits[|hits| - 1];
      WeightedBounds(before, total, p, coordinate, lo, hi);
      OneMoreWeight(lo, coordinate(h), hi, WeightSum(before, total, p), Weighted(before, total, p, coordinate),
                    Weight(h, total, p));
    }
  }

  lemma OneMoreWeight(lo: int, x: int, hi: int, den: real, num: real, w: real)
    requires lo <= x <= hi && w >= 0.0 && Times(lo, den) <= num <= Times(hi, den)
    ensures Times(lo, den + w) <= num + Times(x, w) <= Times(hi, den + w)
  {
    hide Times;
    TimesSum(lo, den, w);
    TimesSum(hi, den, w);
    TimesGrows(lo, x, w);
    TimesGrows(x, hi, w);
  }

  lemma TimesZero(a: int)
    ensures Times(a, 0.0) == 0.0
  {
  }

  lemma TimesSum(a: int, v: real, w: real)
    ensures Times(a, v + w) == Times(a, v) + Times(a, w)
  {
  }

  lemma TimesGrows(a: int, b: int, w: real)
    requires a <= b && w >= 0.0
    ensures Times(a, w) <= Times(b, w)
  {
    var d := (b - a) as real;
    assert d * w >= 0.0;
    assert Times(b, w) == Times(a, w) + d * w;
  }

  lemma QuotientBounds(num: real, den: real, lo: int, hi: int)
    requires den > 0.0 && Times(lo, den) <= num <= Times(hi, den)
    ensures lo as real <= num / den <= hi as real
  {
    var q := num / den;
    assert q * den == num;
    if q < lo as real {
      ScaleStrictly(q, lo as real, den);
    } else if q > hi as real {
      ScaleStrictly(hi as real, q, den);
    }
  }

  lemma ScaleStrictly(a: real, b: real, w: real)
    requires a < b && w > 0.0
    ensures a * w < b * w
  {
  }

  /** The sum over hits of the weight times the distance of a coordinate from `x`. */
  function Deviation(hits: seq<CaloHit>, total: real, p: Parameters, coordinate: CaloHit -> int, x: real): real {
    if hits == [] then 0.0
    else
      var last := hits[|hits| - 1];
      Deviation(hits[..|hits| - 1], total, p, coordinate, x) + Weight(last, total, p) * (coordinate(last) as real - x)
  }

  lemma {:induction false} DeviationSum(hits: seq<CaloHit>, total: real, p: Parameters, coordinate: CaloHit -> int,
                                        x: real)
    ensures Deviation(hits, total, p, coordinate, x)
         == Weighted(hits, total, p, coordinate) - x * WeightSum(hits, total, p)
  {
    hide Weight;
    if hits == [] {
    } else {
      var before, last := hits[..|hits| - 1], hits[|hits| - 1];
      DeviationSum(before, total, p, coordinate, x);
      OneMoreDeviation(coordinate(last), x, WeightSum(before, total, p), Weight(last, total, p));
    }
  }

  lemma OneMoreDeviation(a: int, x: real, den: real, w: real)
    ensures w * (a as real - x) == Times(a, w) - x * w && x * (den + w) == x * den + x * w
  {
  }

  /**
   The position of a cluster is where the weighted distances to its hits cancel out, in each coordinate,
   with weights by the hits' shares of the cluster's energy.
   */
  lemma PositionBalances(seed: CaloHit, hits: seq<CaloHit>, p: Parameters)
    ensures var c := ClusterOf(seed, hits, p);
            && (c.x.Some? ==> Deviation(hits, c.e, p, XOf, c.x.value) == 0.0)
            && (c.y.Some? ==> Deviation(hits, c.e, p, YOf, c.y.value) == 0.0)
  {
    hide Weight, WeightSum, Weighted, EnergySum, Deviation;
    var c, total := ClusterOf(seed, hits, p), EnergySum(hits);
    var den := WeightSum(hits, total, p);
    if den != 0.0 {
      DeviationSum(hits, total, p, XOf, c.x.value);
      DeviationSum(hits, total, p, YOf, c.y.value);
      assert c.x.value * den == Weighted(hits, total, p, XOf);
      assert c.y.value * den == Weighted(hits, total, p, YOf);
    }
  }

  /** With a logarithm that grows with its first argument, a hit of more energy weighs no less. */
  lemma WeightGrows(g: CaloHit, h: CaloHit, total: real, p: Parameters)
    requires g.e <= h.e && forall a, b :: a <= b ==> p.logRatio(a, total) <= p.logRatio(b, total)
    ensures Weight(g, total, p) <= Weight(h, total, p)
  {
    assert p.logRatio(g.e, total) <= p.logRatio(h.e, total);
  }

  /** The places of the hits at most one crystal away from the seed in both coordinates. */
  function NearPlaces(hits: seq<CaloHit>, seed: CaloHit): set<int> {
    set i | 0 <= i < |hits| && -1 <= hits[i].x - seed.x <= 1 && -1 <= hits[i].y - seed.y <= 1
  }

  lemma {:induction false} CountNearCounts(hits: seq<CaloHit>, seed: CaloHit)
    ensures CountNear(hits, seed) == |NearPlaces(hits, seed)|
  {
    if hits == [] {
      assert NearPlaces(hits, seed) == {};
    } else {
      var n := |hits| - 1;
      CountNearCounts(hits[..n], seed);
      var before := NearPlaces(hits[..n], seed);
      assert NearPlaces(hits, seed) == if NearSeed(hits[n], seed) then before + {n} else before;
    }
  }

  /**
   A cluster has a position exactly when some hit has a positive weight, and then it lies within the
   range of its hits' coordinates.
   */
  lemma PositionInRange(seed: CaloHit, hits: seq<CaloHit>, p: Parameters, lo: int, hi: int, lowY: int, highY: int)
    requires forall i :: 0 <= i < |hits| ==> lo <= hits[i].x <= hi && lowY <= hits[i].y <= highY
    ensures var c := ClusterOf(seed, hits, p);
            && (c.x.Some? <==> exists i :: 0 <= i < |hits| && Weight(hits[i], EnergySum(hits), p) > 0.0)
            && (c.x.Some? <==> c.y.Some?)
            && (c.x.Some? ==> lo as real <= c.x.value <= hi as real && lowY as real <= c.y.value <= highY as real)
  {
    hide Weight, WeightSum, Weighted, EnergySum;
    var total := EnergySum(hits);
    var den := WeightSum(hits, total, p);
    SomeWeight(hits, total, p);
    WeightedBounds(hits, total, p, XOf, lo, hi);
    WeightedBounds(hits, total, p, YOf, lowY, highY);
    if den > 0.0 {
      QuotientBounds(Weighted(hits, total, p, XOf), den, lo, hi);
      QuotientBounds(Weighted(hits, total, p, YOf), den, lowY, highY);
    }
  }

  lemma {:induction false} SomeWeight(hits: seq<CaloHit>, total: real, p: Parameters)
    ensures WeightSum(hits, total, p) > 0.0 <==> exists i :: 0 <= i < |hits| && Weight(hits[i], total, p) > 0.0
  {
    hide Weight;
    if hits == [] {
    } else {
      SomeWeight(hits[..|hits| - 1], total, p);
    }
  }

  method SetCluster(seed: CaloHit, hits: seq<CaloHit>, p: Parameters) returns (cluster: Cluster)
    ensures cluster == ClusterOf(seed, hits, p)
  {
    hide Weight, NearSeed;
    var nHits, near, e := 0, 0, 0.0;
    for i := 0 to |hits|
      invariant e == EnergySum(hits[..i]) && nHits == i && near == CountNear(hits[..i], seed)
    {
      assert hits[..i + 1][..i] == hits[..i];
      e := e + hits[i].e;
      nHits := nHits + 1;
      if NearSeed(hits[i], seed) {
        near := near + 1;
      }
    }
    assert hits[..|hits|] == hits;
    var total := e;
    var den, xNum, yNum := 0.0, 0.0, 0.0;
    for i := 0 to |hits|
      invariant den == WeightSum(hits[..i], total, p)
      invariant xNum == Weighted(hits[..i], total, p, XOf) && yNum == Weighted(hits[..i], total, p, YOf)
    {
      assert hits[..i + 1][..i] == hits[..i];
      var w := Weight(hits[i], total, p);
      den := den + w;
      xNum := xNum + Times(hits[i].x, w);
      yNum := yNum + Times(hits[i].y, w);
    }
    cluster := Cluster(seed.sector, e, seed.e, nHits, near, Mean(xNum, den), Mean(yNum, den), hits);
  }

  // ---- Sectors ------------------------------------------------------------------------------

  predicate Kept(h: CaloHit, p: Parameters) { h.e > p.hitThr }

  /** The hits above the hit threshold in a sector, in order. */
  function InSector(hits: seq<CaloHit>, s: int, p: Parameters): (r: seq<CaloHit>)
    ensures forall h :: h in r <==> h in hits && h.sector == s && h.e > p.hitThr
  {
    if hits == [] then []
    else
      var last := hits[|hits| - 1];
      var r := InSector(hits[..|hits| - 1], s, p);
      assert forall h :: h in hits <==> h in hits[..|hits| - 1] || h == last;
      if last.sector == s && Kept(last, p) then r + [last] else r
  }

  /** The sector's most energetic hit, the first of equals, and whether it passes the seed threshold. */
  ghost predicate IsSeed(seed: CaloHit, hits: seq<CaloHit>) {
    exists k :: 0 <= k < |hits| && hits[k] == seed
             && (forall i :: 0 <= i < |hits| ==> hits[i].e <= seed.e) && (forall i :: 0 <= i < k ==> hits[i].e < seed.e)
  }

  /** No hit exceeds the maximum that the search for a seed starts from. */
  predicate AllLow(hits: seq<CaloHit>) {
    forall i :: 0 <= i < |hits| ==> hits[i].e <= -99999.0
  }

  /** Some kept hit of the sector passes the seed threshold. */
  predicate Seeded(hits: seq<CaloHit>, s: int, p: Parameters) {
    exists h :: h in InSector(hits, s, p) && h.e > p.seedThr
  }

  /** The search for the seed; it stays unset exactly when no hit exceeds the initial maximum. */
  method FindSeed(hits: seq<CaloHit>) returns (seed: Option<CaloHit>)
    ensures seed == None <==> AllLow(hits)
    ensures seed.Some? ==> IsSeed(seed.value, hits)
  {
    var eMax := LOWEST_MAXIMUM;
    ghost var k := 0;
    seed := None;
    for i := 0 to |hits|
      invariant seed == None ==> eMax == LOWEST_MAXIMUM
      invariant seed.Some? ==>
                  && 0 <= k < i && seed.value == hits[k] && eMax == seed.value.e > LOWEST_MAXIMUM
                  && forall j :: 0 <= j < k ==> hits[j].e < eMax
      invariant forall j :: 0 <= j < i ==> hits[j].e <= eMax
    {
      if hits[i].e > eMax {
        eMax := hits[i].e;
        seed := Some(hits[i]);
        k := i;
      }
    }
  }

  /** Clusters in increasing order of sector, one for each seeded sector among `done`. */
  ghost predicate ClustersAmong(clusters: seq<Cluster>, hits: seq<CaloHit>, p: Parameters, done: seq<int>) {
    && (forall i, j :: 0 <= i < j < |clusters| ==> clusters[i].sector < clusters[j].sector)
    && (forall i :: 0 <= i < |clusters| ==> clusters[i].sector in done && IsClusterOf(clusters[i], hits, p))
    && (forall s :: s in done && Seeded(hits, s, p) ==> HasCluster(clusters, s))
  }

  /** What the clusters of an event are: one per seeded sector, in increasing order of sector. */
  ghost predicate AreClusters(clusters: seq<Cluster>, hits: seq<CaloHit>, p: Parameters) {
    && (forall i, j :: 0 <= i < j < |clusters| ==> clusters[i].sector < clusters[j].sector)
    && (forall i :: 0 <= i < |clusters| ==> IsClusterOf(clusters[i], hits, p))
    && (forall s :: Seeded(hits, s, p) ==> HasCluster(clusters, s))
  }

  ghost predicate HasCluster(clusters: seq<Cluster>, s: int) {
    exists i :: 0 <= i < |clusters| && clusters[i].sector == s
  }

  ghost predicate IsClusterOf(c: Cluster, hits: seq<CaloHit>, p: Parameters) {
    && Seeded(hits, c.sector, p)
    && exists seed :: IsSeed(seed, InSector(hits, c.sector, p)) && c == ClusterOf(seed, InSector(hits, c.sector, p), p)
  }

  lemma AddCluster(clusters: seq<Cluster>, hits: seq<CaloHit>, p: Parameters, done: seq<int>, s: int, seed: CaloHit)
    requires ClustersAmong(clusters, hits, p, done) && forall d :: d in done ==> d < s
    requires IsSeed(seed, InSector(hits, s, p)) && seed.e > p.seedThr
    ensures ClustersAmong(clusters + [ClusterOf(seed, InSector(hits, s, p), p)], hits, p, done + [s])
  {
    hide InSector, ClusterOf, IsSeed, Seeded;
    SeedDecides(seed, hits, s, p);
    SeedSector(seed, hits, s, p);
    var c := ClusterOf(seed, InSector(hits, s, p), p);
    var clusters' := clusters + [c];
    assert IsClusterOf(c, hits, p);
    assert clusters'[|clusters|].sector == s;
    forall t | t in done + [s] && Seeded(hits, t, p)
      ensures HasCluster(clusters', t)
    {
      if t != s {
        assert HasCluster(clusters, t);
        var i :| 0 <= i < |clusters| && clusters[i].sector == t;
        assert clusters'[i].sector == t;
      }
    }
  }

  lemma SkipSector(clusters: seq<Cluster>, hits: seq<CaloHit>, p: Parameters, done: seq<int>, s: int, seed: CaloHit)
    requires ClustersAmong(clusters, hits, p, done)
    requires IsSeed(seed, InSector(hits, s, p)) && seed.e <= p.seedThr
    ensures ClustersAmong(clusters, hits, p, done + [s])
  {
    hide InSector, ClusterOf, IsSeed, Seeded;
    SeedDecides(seed, hits, s, p);
  }

  predicate Ascending(keys: seq<int>) {
    forall i, j :: 0 <= i < j < |keys| ==> keys[i] < keys[j]
  }

  /** The keys of an ordered map after an insertion. */
  function Inserted(keys: seq<int>, k: int): (r: seq<int>)
    requires Ascending(keys)
    ensures Ascending(r) && forall x :: x in r <==> x in keys || x == k
  {
    if keys == [] then [k]
    else
      var n := |keys| - 1;
      if keys[n] < k then keys + [k]
      else if keys[n] == k then keys
      else
        var before := Inserted(keys[..n], k);
        assert forall i :: 0 <= i < |before| ==> before[i] in before;
        assert forall x :: x in keys <==> x in keys[..n] || x == keys[n];
        assert forall x :: x in keys[..n] ==> x < keys[n];
        before + [keys[n]]
  }

  lemma NothingInSectors(p: Parameters)
    ensures Ascending([]) && forall s :: InSector([], s, p) == []
  {
  }

  lemma OneMoreHit(hits: seq<CaloHit>, i: nat, s: int, p: Parameters)
    requires i < |hits|
    ensures InSector(hits[..i + 1], s, p)
         == InSector(hits[..i], s, p) + if hits[i].sector == s && Kept(hits[i], p) then [hits[i]] else []
  {
    hide Kept;
    assert hits[..i + 1][..i] == hits[..i];
  }

  /** Collect the kept hits by sector, in an ordered map. */
  method BySector(hits: seq<CaloHit>, p: Parameters) returns (keys: seq<int>, m: map<int, seq<CaloHit>>)
    ensures Ascending(keys) && forall s :: s in keys <==> s in m
    ensures forall s :: s in m <==> InSector(hits, s, p) != []
    ensures forall s :: s in m ==> m[s] == InSector(hits, s, p)
  {
    hide Kept, InSector, Inserted, Ascending;
    keys, m := [], map[];
    NothingInSectors(p);
    for i := 0 to |hits|
      invariant Ascending(keys) && forall s :: s in keys <==> s in m
      invariant forall s :: s in m <==> InSector(hits[..i], s, p) != []
      invariant forall s :: s in m ==> m[s] == InSector(hits[..i], s, p)
    {
      var h := hits[i];
      forall s
        ensures InSector(hits[..i + 1], s, p) == InSector(hits[..i], s, p) +
              if h.sector == s && Kept(h, p) then [h] else []
      {
        OneMoreHit(hits, i, s, p);
      }
      if Kept(h, p) {
        keys := Inserted(keys, h.sector);
        m := m[h.sector := (if h.sector in m then m[h.sector] else []) + [h]];
      }
    }
    assert hits[..|hits|] == hits;
  }

  /** What an event is made into; `SeedUnset`: a sector's seed is used that has never been set. */
  datatype EventResult = Clusters(clusters: seq<Cluster>) | SeedUnset

  /** A sector has kept hits, but none exceeds the maximum that the search for its seed starts from. */
  predicate LowSector(hits: seq<CaloHit>, s: int, p: Parameters) {
    InSector(hits, s, p) != [] && AllLow(InSector(hits, s, p))
  }

  /** The factory's event method. */
  method FindClusters(hits: seq<CaloHit>, p: Parameters) returns (r: EventResult)
    ensures r.Clusters? ==> AreClusters(r.clusters, hits, p)
    ensures r.SeedUnset? <==> exists s :: LowSector(hits, s, p)
  {
    hide InSector, ClusterOf, IsSeed, ClustersAmong, AllLow;
    var keys, m := BySector(hits, p);
    var clusters := [];
    NoClustersYet(hits, p);
    for i := 0 to |keys|
      invariant ClustersAmong(clusters, hits, p, keys[..i])
      invariant forall j :: 0 <= j < i ==> !LowSector(hits, keys[j], p)
    {
      var s := keys[i];
      assert s in keys;
      var sectorHits := m[s];
      var found := FindSeed(sectorHits);
      if found == None {
        assert LowSector(hits, s, p);
        return SeedUnset;
      }
      var seed := found.value;
      if seed.e > p.seedThr {
        var cluster := SetCluster(seed, sectorHits, p);
        AddCluster(clusters, hits, p, keys[..i], s, seed);
        clusters := clusters + [cluster];
      } else {
        SkipSector(clusters, hits, p, keys[..i], s, seed);
      }
      assert keys[..i + 1] == keys[..i] + [s];
    }
    assert keys[..|keys|] == keys;
    AllSectorsDone(clusters, hits, p, keys);
    forall s
      ensures !LowSector(hits, s, p)
    {
      if InSector(hits, s, p) != [] {
        assert s in keys;
      }
    }
    return Clusters(clusters);
  }

  /** Sectors without a seed to use appear only with a hit threshold below the initial maximum. */
  lemma SeedAlwaysSet(hits: seq<CaloHit>, s: int, p: Parameters)
    requires p.hitThr >= -99999.0
    ensures !LowSector(hits, s, p)
  {
    var kept := InSector(hits, s, p);
    if kept != [] {
      assert kept[0] in kept;
      InSectorMember(hits, s, p, kept[0]);
    }
  }

  lemma NoClustersYet(hits: seq<CaloHit>, p: Parameters)
    ensures ClustersAmong([], hits, p, [])
  {
  }

  lemma AllSectorsDone(clusters: seq<Cluster>, hits: seq<CaloHit>, p: Parameters, done: seq<int>)
    requires ClustersAmong(clusters, hits, p, done) && forall s :: InSector(hits, s, p) != [] ==> s in done
    ensures AreClusters(clusters, hits, p)
  {
    hide InSector, ClusterOf, IsSeed;
    forall s | Seeded(hits, s, p)
      ensures HasCluster(clusters, s)
    {
      assert InSector(hits, s, p) != [];
    }
  }

  lemma InSectorMember(hits: seq<CaloHit>, s: int, p: Parameters, h: CaloHit)
    requires h in InSector(hits, s, p)
    ensures h in hits && h.sector == s && h.e > p.hitThr
  {
  }

  lemma SeedDecides(seed: CaloHit, hits: seq<CaloHit>, s: int, p: Parameters)
    requires IsSeed(seed, InSector(hits, s, p))
    ensures Seeded(hits, s, p) <==> seed.e > p.seedThr
  {
    hide InSector;
  }

  lemma SeedSector(seed: CaloHit, hits: seq<CaloHit>, s: int, p: Parameters)
    requires IsSeed(seed, InSector(hits, s, p))
    ensures ClusterOf(seed, InSector(hits, s, p), p).sector == s
  {
    InSectorMember(hits, s, p, seed);
  }

  /**
   What a cluster of an event says of its hits: their number, the first of the most energetic, whose energy
   passes the seed threshold, and how many are at most one crystal away from that in both coordinates.
   */
  lemma ClusterCounts(clusters: seq<Cluster>, hits: seq<CaloHit>, p: Parameters, i: nat)
    requires AreClusters(clusters, hits, p) && i < |clusters|
    ensures var c := clusters[i];
            && c.nHits == |c.hits| && c.eSeed > p.seedThr
            && exists k :: 0 <= k < |c.hits| && c.hits[k].e == c.eSeed
                 && (forall j :: 0 <= j < |c.hits| ==> c.hits[j].e <= c.eSeed)
                 && (forall j :: 0 <= j < k ==> c.hits[j].e < c.eSeed)
                 && c.nHitsNearSeed == |NearPlaces(c.hits, c.hits[k])|
  {
    hide InSector, CountNear, Seeded, NearPlaces;
    var c := clusters[i];
    assert IsClusterOf(c, hits, p);
    var sectorHits := InSector(hits, c.sector, p);
    var seed :| IsSeed(seed, sectorHits) && c == ClusterOf(seed, sectorHits, p);
    SeedDecides(seed, hits, c.sector, p);
    CountNearCounts(sectorHits, seed);
  }

  // ---- Conservation -------------------------------------------------------------------------

  /** Every kept hit of a seeded sector lands in exactly one cluster, and no other hit in any. */
  lemma HitsLandOnce(clusters: seq<Cluster>, hits: seq<CaloHit>, p: Parameters, h: CaloHit)
    requires AreClusters(clusters, hits, p) && h in hits
    ensures h.e > p.hitThr && Seeded(hits, h.sector, p) <==> exists i :: 0 <= i < |clusters| && h in clusters[i].hits
    ensures forall i: nat, j: nat ::
              i < |clusters| && j < |clusters| && h in clusters[i].hits && h in clusters[j].hits ==> i == j
  {
    hide Seeded, IsSeed;
    forall i | 0 <= i < |clusters|
      ensures clusters[i].hits == InSector(hits, clusters[i].sector, p) && Seeded(hits, clusters[i].sector, p)
    {
      assert IsClusterOf(clusters[i], hits, p);
    }
    if Kept(h, p) && Seeded(hits, h.sector, p) {
      assert HasCluster(clusters, h.sector);
      var i :| 0 <= i < |clusters| && clusters[i].sector == h.sector;
      assert h in clusters[i].hits;
    }
  }

  function SectorsOf(clusters: seq<Cluster>): (sectors: set<int>)
    ensures forall s :: s in sectors <==> exists i :: 0 <= i < |clusters| && clusters[i].sector == s
  {
    set i | 0 <= i < |clusters| :: clusters[i].sector
  }

  lemma SectorsGrow(clusters: seq<Cluster>, c: Cluster)
    ensures SectorsOf(clusters + [c]) == SectorsOf(clusters) + {c.sector}
  {
    hide SectorsOf;
    var all := clusters + [c];
    assert all[|clusters|] == c;
    forall s
      ensures s in SectorsOf(all) <==> s in SectorsOf(clusters) || s == c.sector
    {
      if s in SectorsOf(clusters) {
        var i :| 0 <= i < |clusters| && clusters[i].sector == s;
        assert all[i].sector == s;
      }
    }
  }

  /** The hits of all clusters, one cluster after the other. */
  function ClusteredHits(clusters: seq<Cluster>): seq<CaloHit> {
    if clusters == [] then [] else ClusteredHits(clusters[..|clusters| - 1]) + clusters[|clusters| - 1].hits
  }

  /** The kept hits in the given sectors, in order. */
  function KeptHits(hits: seq<CaloHit>, p: Parameters, sectors: set<int>): seq<CaloHit> {
    if hits == [] then []
    else
      var last := hits[|hits| - 1];
      KeptHits(hits[..|hits| - 1], p, sectors) + if Kept(last, p) && last.sector in sectors then [last] else []
  }

  /** The kept hits whose sector is seeded, in order. */
  function SeededHits(hits: seq<CaloHit>, all: seq<CaloHit>, p: Parameters): seq<CaloHit> {
    if hits == [] then []
    else
      var last := hits[|hits| - 1];
      SeededHits(hits[..|hits| - 1], all, p) + if last.e > p.hitThr && Seeded(all, last.sector, p) then [last] else []
  }

  lemma {:induction false} AddSectorHits(hits: seq<CaloHit>, p: Parameters, sectors: set<int>, s: int)
    requires s !in sectors
    ensures multiset(KeptHits(hits, p, sectors + {s}))
         == multiset(KeptHits(hits, p, sectors)) + multiset(InSector(hits, s, p))
  {
    hide Kept;
    if hits == [] {
    } else {
      AddSectorHits(hits[..|hits| - 1], p, sectors, s);
    }
  }

  lemma {:induction false} NoSectorHits(hits: seq<CaloHit>, p: Parameters)
    ensures KeptHits(hits, p, {}) == []
  {
    if hits == [] {
    } else {
      NoSectorHits(hits[..|hits| - 1], p);
    }
  }

  lemma {:induction false} ClusterHitsAddUp(clusters: seq<Cluster>, hits: seq<CaloHit>, p: Parameters)
    requires forall i, j :: 0 <= i < j < |clusters| ==> clusters[i].sector < clusters[j].sector
    requires forall i :: 0 <= i < |clusters| ==> clusters[i].hits == InSector(hits, clusters[i].sector, p)
    ensures multiset(ClusteredHits(clusters)) == multiset(KeptHits(hits, p, SectorsOf(clusters)))
  {
    hide KeptHits, InSector, SectorsOf;
    if clusters == [] {
      NoSectorHits(hits, p);
      assert SectorsOf(clusters) == {};
    } else {
      var n := |clusters| - 1;
      var before := clusters[..n];
      ClusterHitsAddUp(before, hits, p);
      var s := clusters[n].sector;
      assert s !in SectorsOf(before);
      AddSectorHits(hits, p, SectorsOf(before), s);
      SectorsGrow(before, clusters[n]);
      assert clusters == before + [clusters[n]];
    }
  }

  lemma {:induction false} SeededHitsKept(hits: seq<CaloHit>, all: seq<CaloHit>, p: Parameters, sectors: set<int>)
    requires forall s :: s in sectors <==> Seeded(all, s, p)
    ensures KeptHits(hits, p, sectors) == SeededHits(hits, all, p)
  {
    hide Seeded;
    if hits == [] {
    } else {
      SeededHitsKept(hits[..|hits| - 1], all, p, sectors);
    }
  }

  /**
   The clusters hold exactly the kept hits of seeded sectors, each as often as it occurs among the hits:
   equal hits are counted separately, none is lost and none is taken twice.
   */
  lemma HitsConserved(clusters: seq<Cluster>, hits: seq<CaloHit>, p: Parameters)
    requires AreClusters(clusters, hits, p)
    ensures multiset(ClusteredHits(clusters)) == multiset(SeededHits(hits, hits, p))
  {
    hide InSector, Seeded, IsSeed, KeptHits, SeededHits, ClusteredHits;
    forall i | 0 <= i < |clusters|
      ensures clusters[i].hits == InSector(hits, clusters[i].sector, p) && Seeded(hits, clusters[i].sector, p)
    {
      assert IsClusterOf(clusters[i], hits, p);
    }
    ClusterHitsAddUp(clusters, hits, p);
    SeededHaveClusters(clusters, hits, p);
    SeededHitsKept(hits, hits, p, SectorsOf(clusters));
  }

  lemma SeededHaveClusters(clusters: seq<Cluster>, hits: seq<CaloHit>, p: Parameters)
    requires AreClusters(clusters, hits, p)
    ensures forall s :: s in SectorsOf(clusters) <==> Seeded(hits, s, p)
  {
    hide Seeded, IsSeed, InSector;
    forall i | 0 <= i < |clusters|
      ensures Seeded(hits, clusters[i].sector, p)
    {
      assert IsClusterOf(clusters[i], hits, p);
    }
    forall s
      ensures s in SectorsOf(clusters) <==> Seeded(hits, s, p)
    {
      if Seeded(hits, s, p) {
        assert HasCluster(clusters, s);
      }
    }
  }

  function ClusterEnergy(clusters: seq<Cluster>): real {
    if clusters == [] then 0.0 else ClusterEnergy(clusters[..|clusters| - 1]) + clusters[|clusters| - 1].e
  }

  /** The energy of the kept hits in the given sectors. */
  function KeptEnergy(hits: seq<CaloHit>, p: Parameters, sectors: set<int>): real {
    if hits == [] then 0.0
    else
      var last := hits[|hits| - 1];
      KeptEnergy(hits[..|hits| - 1], p, sectors) + if Kept(last, p) && last.sector in sectors then last.e else 0.0
  }

  lemma {:induction false} AddSector(hits: seq<CaloHit>, p: Parameters, sectors: set<int>, s: int)
    requires s !in sectors
    ensures KeptEnergy(hits, p, sectors + {s}) == KeptEnergy(hits, p, sectors) + EnergySum(InSector(hits, s, p))
  {
    hide Kept, InSector, EnergySum;
    if hits == [] {
      NothingInSector(s, p);
    } else {
      AddSector(hits[..|hits| - 1], p, sectors, s);
      LastInSector(hits, s, p);
    }
  }

  lemma NothingInSector(s: int, p: Parameters)
    ensures InSector([], s, p) == [] && EnergySum([]) == 0.0
  {
  }

  lemma LastInSector(hits: seq<CaloHit>, s: int, p: Parameters)
    requires hits != []
    ensures var last := hits[|hits| - 1];
            EnergySum(InSector(hits, s, p)) == EnergySum(InSector(hits[..|hits| - 1], s, p))
                                             + if Kept(last, p) && last.sector == s then last.e else 0.0
  {
    hide Kept;
    var r := InSector(hits[..|hits| - 1], s, p);
    assert (r + [hits[|hits| - 1]])[..|r|] == r;
  }

  lemma {:induction false} NoSectors(hits: seq<CaloHit>, p: Parameters)
    ensures KeptEnergy(hits, p, {}) == 0.0
  {
    if hits == [] {
    } else {
      NoSectors(hits[..|hits| - 1], p);
    }
  }

  lemma {:induction false} ClustersAddUp(clusters: seq<Cluster>, hits: seq<CaloHit>, p: Parameters)
    requires forall i, j :: 0 <= i < j < |clusters| ==> clusters[i].sector < clusters[j].sector
    requires forall i :: 0 <= i < |clusters| ==> clusters[i].e == EnergySum(InSector(hits, clusters[i].sector, p))
    ensures ClusterEnergy(clusters) == KeptEnergy(hits, p, SectorsOf(clusters))
  {
    hide KeptEnergy, EnergySum, InSector, SectorsOf;
    if clusters == [] {
      NoSectors(hits, p);
      assert SectorsOf(clusters) == {};
    } else {
      var n := |clusters| - 1;
      var before := clusters[..n];
      ClustersAddUp(before, hits, p);
      var s := clusters[n].sector;
      assert s !in SectorsOf(before);
      AddSector(hits, p, SectorsOf(before), s);
      SectorsGrow(before, clusters[n]);
      assert clusters == before + [clusters[n]];
    }
  }

  /** The energy of the kept hits whose sector is seeded. */
  function SeededEnergy(hits: seq<CaloHit>, all: seq<CaloHit>, p: Parameters): real {
    if hits == [] then 0.0
    else
      var last := hits[|hits| - 1];
      SeededEnergy(hits[..|hits| - 1], all, p) +
        if last.e > p.hitThr && Seeded(all, last.sector, p) then last.e else 0.0
  }

  lemma {:induction false} SeededSectors(hits: seq<CaloHit>, all: seq<CaloHit>, p: Parameters, sectors: set<int>)
    requires forall s :: s in sectors <==> Seeded(all, s, p)
    ensures KeptEnergy(hits, p, sectors) == SeededEnergy(hits, all, p)
  {
    hide Seeded;
    if hits == [] {
    } else {
      SeededSectors(hits[..|hits| - 1], all, p, sectors);
    }
  }

  /** The cluster energies sum to the energy of the kept hits in seeded sectors. */
  lemma EnergyConserved(clusters: seq<Cluster>, hits: seq<CaloHit>, p: Parameters)
    requires AreClusters(clusters, hits, p)
    ensures ClusterEnergy(clusters) == SeededEnergy(hits, hits, p)
  {
    hide InSector, EnergySum, Seeded, IsSeed, KeptEnergy, SeededEnergy, ClusterEnergy;
    forall i | 0 <= i < |clusters|
      ensures clusters[i].e == EnergySum(InSector(hits, clusters[i].sector, p)) && Seeded(hits, clusters[i].sector, p)
    {
      assert IsClusterOf(clusters[i], hits, p);
    }
    ClustersAddUp(clusters, hits, p);
    SeededHaveClusters(clusters, hits, p);
    SeededSectors(hits, hits, p, SectorsOf(clusters));
  }
}

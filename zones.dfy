/** The zone binner: `pd.cut` places each aggregated topic in a satisfaction
    zone and a significance zone (right-closed bins, the lowest edge
    excluded), and the heatmap groups the topics by the pair of zones,
    joining their names and summing their volumes. */
module Zones {
  import opened Wrappers
  import opened Topics
  import Strings

  datatype SatisfactionZone = SatisfactionLow | SatisfactionNeutral | SatisfactionHigh
  datatype SignificanceZone = SignificanceLow | SignificanceHigh

  /** A cell of the grid, keyed as the heatmap groups it. */
  datatype Zone = Zone(significance: SignificanceZone, satisfaction: SatisfactionZone)

  /** `pd.cut` on the edges -1, -0.1, 0.1 and 1: bins (-1, -0.1], (-0.1, 0.1] and
      (0.1, 1]; -1 itself and anything outside [-1, 1] fall in no bin. */
  function SatisfactionZoneOf(x: real): (z: Option<SatisfactionZone>)
    ensures z == Some(SatisfactionLow) <==> -1.0 < x <= -0.1
    ensures z == Some(SatisfactionNeutral) <==> -0.1 < x <= 0.1
    ensures z == Some(SatisfactionHigh) <==> 0.1 < x <= 1.0
    ensures z == None <==> x <= -1.0 || x > 1.0
  {
    if x <= -1.0 || x > 1.0 then None
    else if x <= -0.1 then Some(SatisfactionLow)
    else if x <= 0.1 then Some(SatisfactionNeutral)
    else Some(SatisfactionHigh)
  }

  /** `pd.cut` on the edges 0, 0.5 and 1: bins (0, 0.5] and (0.5, 1]; 0 itself and
      anything outside [0, 1] fall in no bin. */
  function SignificanceZoneOf(x: real): (z: Option<SignificanceZone>)
    ensures z == Some(SignificanceLow) <==> 0.0 < x <= 0.5
    ensures z == Some(SignificanceHigh) <==> 0.5 < x <= 1.0
    ensures z == None <==> x <= 0.0 || x > 1.0
  {
    if x <= 0.0 || x > 1.0 then None
    else if x <= 0.5 then Some(SignificanceLow)
    else Some(SignificanceHigh)
  }

  /** The cell of a topic, if both its means fall in a bin; `groupby` drops
      a topic whose zone is missing. */
  function ZoneOf(a: TopicAgg): (z: Option<Zone>)
    ensures z.Some? <==> -1.0 < a.satisfaction <= 1.0 && 0.0 < a.significance <= 1.0
  {
    match (SignificanceZoneOf(a.significance), SatisfactionZoneOf(a.satisfaction))
    case (Some(sig), Some(sat)) => Some(Zone(sig, sat))
    case _ => None
  }

  /** The cells in the order the grouping emits them: by significance zone,
      then satisfaction zone, each in category order. */
  const Grid: seq<Zone> := [
    Zone(SignificanceLow, SatisfactionLow), Zone(SignificanceLow, SatisfactionNeutral),
    Zone(SignificanceLow, SatisfactionHigh), Zone(SignificanceHigh, SatisfactionLow),
    Zone(SignificanceHigh, SatisfactionNeutral), Zone(SignificanceHigh, SatisfactionHigh)]

  lemma GridComplete(z: Zone)
    ensures z in Grid
  {
    var i := (if z.significance == SignificanceLow then 0 else 3)
           + (match z.satisfaction
              case SatisfactionLow => 0
              case SatisfactionNeutral => 1
              case SatisfactionHigh => 2);
    assert Grid[i] == z;
  }

  lemma GridDistinct()
    ensures ZonesDistinct(Grid)
  {
  }

  /** A row of `heatmap_df`: the topics of one cell and their total volume. */
  datatype Cell = Cell(zone: Zone, topics: seq<string>, count: nat)

  /** The label the heatmap shows for a cell: the topic names joined by
      `<br>`. */
  function Text(c: Cell): string
  {
    Strings.Join(c.topics, "<br>")
  }

  /** The topics in cell `z`, in the order of `agg`. */
  function CellMembers(agg: seq<TopicAgg>, z: Zone): (m: seq<TopicAgg>)
    ensures forall a :: a in m <==> a in agg && ZoneOf(a) == Some(z)
  {
    if |agg| == 0 then []
    else (if ZoneOf(agg[0]) == Some(z) then [agg[0]] else []) + CellMembers(agg[1..], z)
  }

  /** One cell per zone of `zones` that holds at least one topic. */
  function Cells(agg: seq<TopicAgg>, zones: seq<Zone>): (cells: seq<Cell>)
    ensures forall c :: c in cells ==>
              && c.zone in zones
              && |CellMembers(agg, c.zone)| > 0
              && c.topics == TopicNames(CellMembers(agg, c.zone))
              && c.count == SumVolumes(CellMembers(agg, c.zone))
    ensures forall z :: z in zones && |CellMembers(agg, z)| > 0 ==> exists c :: c in cells && c.zone == z
  {
    if |zones| == 0 then []
    else
      var m := CellMembers(agg, zones[0]);
      (if |m| > 0 then [Cell(zones[0], TopicNames(m), SumVolumes(m))] else []) + Cells(agg, zones[1..])
  }

  /** `heatmap_df`: the populated cells of the grid. */
  function Heatmap(agg: seq<TopicAgg>): (cells: seq<Cell>)
    ensures forall c :: c in cells ==> |c.topics| > 0
    ensures forall a :: a in agg && ZoneOf(a).Some? ==> exists c :: c in cells && c.zone == ZoneOf(a).value
  {
    forall a | a in agg && ZoneOf(a).Some?
      ensures ZoneOf(a).value in Grid && |CellMembers(agg, ZoneOf(a).value)| > 0
    {
      GridComplete(ZoneOf(a).value);
      assert a in CellMembers(agg, ZoneOf(a).value);
    }
    Cells(agg, Grid)
  }

  predicate ZonesDistinct(zones: seq<Zone>)
  {
    forall i, j :: 0 <= i < j < |zones| ==> zones[i] != zones[j]
  }

  function ZonesOf(cells: seq<Cell>): (zs: seq<Zone>)
    ensures |zs| == |cells|
    ensures forall i :: 0 <= i < |cells| ==> zs[i] == cells[i].zone
  {
    if |cells| == 0 then [] else [cells[0].zone] + ZonesOf(cells[1..])
  }

  /** A zone put in front of distinct zones it is not among keeps them distinct. */
  lemma ZonesDistinctCons(z: Zone, zs: seq<Zone>)
    requires ZonesDistinct(zs) && z !in zs
    ensures ZonesDistinct([z] + zs)
  {
    var s := [z] + zs;
    forall i, j | 0 <= i < j < |s|
      ensures s[i] != s[j]
    {
      assert s[j] == zs[j - 1];
      if i > 0 {
        assert s[i] == zs[i - 1];
      }
    }
  }

  lemma {:induction false} CellsDistinct(agg: seq<TopicAgg>, zones: seq<Zone>)
    requires ZonesDistinct(zones)
    ensures ZonesDistinct(ZonesOf(Cells(agg, zones)))
    ensures forall z :: z in ZonesOf(Cells(agg, zones)) ==> z in zones
    decreases |zones|
  {
    if |zones| > 0 {
      var rest := Cells(agg, zones[1..]);
      var zs := ZonesOf(rest);
      assert ZonesDistinct(zones[1..]);
      CellsDistinct(agg, zones[1..]);
      var m := CellMembers(agg, zones[0]);
      if |m| > 0 {
        var c := Cell(zones[0], TopicNames(m), SumVolumes(m));
        assert Cells(agg, zones) == [c] + rest;
        assert ([c] + rest)[1..] == rest;
        assert ZonesOf(Cells(agg, zones)) == [zones[0]] + zs;
        assert zones[0] !in zones[1..];
        ZonesDistinctCons(zones[0], zs);
      } else {
        assert Cells(agg, zones) == rest;
      }
    }
  }

  /** Every cell is populated, lists exactly its member topics in the order
      of `agg` (its label joins their names with `<br>`), counts their total
      volume, and no two cells share a zone. */
  lemma HeatmapCells(agg: seq<TopicAgg>)
    ensures forall c :: c in Heatmap(agg) ==>
              && |CellMembers(agg, c.zone)| > 0
              && c.topics == TopicNames(CellMembers(agg, c.zone))
              && c.count == SumVolumes(CellMembers(agg, c.zone))
              && Text(c) == Strings.Join(TopicNames(CellMembers(agg, c.zone)), "<br>")
    ensures ZonesDistinct(ZonesOf(Heatmap(agg)))
  {
    CellsDistinct(agg, Grid);
  }

  /** Topic names in `agg` are unique, as the aggregator makes them. */
  predicate UniqueTopics(agg: seq<TopicAgg>)
  {
    forall i, j :: 0 <= i < |agg| && 0 <= j < |agg| && agg[i].topic == agg[j].topic ==> i == j
  }

  /** A zoned topic is listed in the cell of its zones. */
  lemma PlacementIn(agg: seq<TopicAgg>, a: TopicAgg)
    requires a in agg && ZoneOf(a).Some?
    ensures exists c :: c in Heatmap(agg) && c.zone == ZoneOf(a).value && a.topic in c.topics
  {
    var z := ZoneOf(a).value;
    var m := CellMembers(agg, z);
    assert a in m;
    GridComplete(z);
    assert z in Grid && |m| > 0;
    assert Heatmap(agg) == Cells(agg, Grid);
    var c :| c in Heatmap(agg) && c.zone == z;
    HeatmapCells(agg);
    var k :| 0 <= k < |m| && m[k] == a;
    assert TopicNames(m)[k] == a.topic;
    assert a.topic in c.topics;
  }

  /** A topic listed in a cell has that cell's zones. */
  lemma PlacementOnly(agg: seq<TopicAgg>, a: TopicAgg, c: Cell)
    requires UniqueTopics(agg) && a in agg
    requires c in Heatmap(agg) && a.topic in c.topics
    ensures ZoneOf(a) == Some(c.zone)
  {
    HeatmapCells(agg);
    var m := CellMembers(agg, c.zone);
    assert c.topics == TopicNames(m);
    var k :| 0 <= k < |TopicNames(m)| && TopicNames(m)[k] == a.topic;
    assert m[k] in m;
    var i :| 0 <= i < |agg| && agg[i] == m[k];
    var i' :| 0 <= i' < |agg| && agg[i'] == a;
    assert agg[i].topic == agg[i'].topic;
  }

  /** A topic whose means both fall in a bin is listed in exactly one cell,
      the cell of its zones; a topic without a zone is in no cell. */
  lemma Placement(agg: seq<TopicAgg>, a: TopicAgg)
    requires UniqueTopics(agg) && a in agg
    ensures ZoneOf(a).Some? ==> exists c :: c in Heatmap(agg) && c.zone == ZoneOf(a).value && a.topic in c.topics
    ensures forall c :: c in Heatmap(agg) && a.topic in c.topics ==> ZoneOf(a) == Some(c.zone)
  {
    if ZoneOf(a).Some? {
      PlacementIn(agg, a);
    }
    forall c | c in Heatmap(agg) && a.topic in c.topics
      ensures ZoneOf(a) == Some(c.zone)
    {
      PlacementOnly(agg, a, c);
    }
  }

  function ZonedVolume(agg: seq<TopicAgg>): nat
  {
    if |agg| == 0 then 0
    else (if ZoneOf(agg[0]).Some? then agg[0].volume else 0) + ZonedVolume(agg[1..])
  }

  /** The total volume of the members of the cells of `zones`. */
  function ZonesVolume(agg: seq<TopicAgg>, zones: seq<Zone>): nat
  {
    if |zones| == 0 then 0 else SumVolumes(CellMembers(agg, zones[0])) + ZonesVolume(agg, zones[1..])
  }

  function CellCounts(cells: seq<Cell>): nat
  {
    if |cells| == 0 then 0 else cells[0].count + CellCounts(cells[1..])
  }

  /** The first zone of the list adds its members' volume to the cell counts,
      whether or not it is populated. */
  lemma CellCountsStep(agg: seq<TopicAgg>, zones: seq<Zone>)
    requires |zones| > 0
    ensures CellCounts(Cells(agg, zones))
            == SumVolumes(CellMembers(agg, zones[0])) + CellCounts(Cells(agg, zones[1..]))
  {
    var m := CellMembers(agg, zones[0]);
    var rest := Cells(agg, zones[1..]);
    if |m| > 0 {
      var cells := [Cell(zones[0], TopicNames(m), SumVolumes(m))] + rest;
      assert Cells(agg, zones) == cells;
      assert cells[1..] == rest;
    } else {
      assert m == [];
      assert Cells(agg, zones) == rest;
    }
  }

  lemma {:induction false} CellCountsOfZones(agg: seq<TopicAgg>, zones: seq<Zone>)
    ensures CellCounts(Cells(agg, zones)) == ZonesVolume(agg, zones)
    decreases |zones|
  {
    if |zones| > 0 {
      CellCountsOfZones(agg, zones[1..]);
      CellCountsStep(agg, zones);
    }
  }

  /** How much of topic `a`'s volume the cells of `zones` take. */
  function Hits(a: TopicAgg, zones: seq<Zone>): nat
  {
    if |zones| == 0 then 0 else (if ZoneOf(a) == Some(zones[0]) then a.volume else 0) + Hits(a, zones[1..])
  }

  lemma {:induction false} ZonesVolumeStep(agg: seq<TopicAgg>, zones: seq<Zone>)
    requires |agg| > 0
    ensures ZonesVolume(agg, zones) == ZonesVolume(agg[1..], zones) + Hits(agg[0], zones)
    decreases |zones|
  {
    if |zones| > 0 {
      ZonesVolumeStep(agg, zones[1..]);
      var z := zones[0];
      var head := if ZoneOf(agg[0]) == Some(z) then [agg[0]] else [];
      assert CellMembers(agg, z) == head + CellMembers(agg[1..], z);
      if head != [] {
        assert (head + CellMembers(agg[1..], z))[1..] == CellMembers(agg[1..], z);
      } else {
        assert head + CellMembers(agg[1..], z) == CellMembers(agg[1..], z);
      }
    }
  }

  /** Over distinct zones, a topic's volume is taken once if its zone is
      among them and not at all otherwise. */
  lemma {:induction false} HitsDistinct(a: TopicAgg, zones: seq<Zone>)
    requires ZonesDistinct(zones)
    ensures Hits(a, zones) == if ZoneOf(a).Some? && ZoneOf(a).value in zones then a.volume else 0
    decreases |zones|
  {
    if |zones| > 0 {
      assert ZonesDistinct(zones[1..]);
      HitsDistinct(a, zones[1..]);
      assert zones[0] !in zones[1..];
    }
  }

  /** Each zoned topic falls in exactly one cell of the grid. */
  lemma GridHits(a: TopicAgg)
    ensures Hits(a, Grid) == if ZoneOf(a).Some? then a.volume else 0
  {
    GridDistinct();
    HitsDistinct(a, Grid);
    if ZoneOf(a).Some? {
      GridComplete(ZoneOf(a).value);
    }
  }

  lemma {:induction false} GridVolume(agg: seq<TopicAgg>)
    ensures ZonesVolume(agg, Grid) == ZonedVolume(agg)
    decreases |agg|
  {
    if |agg| == 0 {
      ZonesVolumeEmpty(agg, Grid);
    } else {
      ZonesVolumeStep(agg, Grid);
      GridHits(agg[0]);
      GridVolume(agg[1..]);
    }
  }

  lemma {:induction false} ZonesVolumeEmpty(agg: seq<TopicAgg>, zones: seq<Zone>)
    requires |agg| == 0
    ensures ZonesVolume(agg, zones) == 0
    decreases |zones|
  {
    if |zones| > 0 {
      ZonesVolumeEmpty(agg, zones[1..]);
    }
  }

  /** The heatmap's counts add up to the volume of the topics that have a
      zone: nothing is counted twice and only unzoned topics are lost. */
  lemma HeatmapVolume(agg: seq<TopicAgg>)
    ensures CellCounts(Heatmap(agg)) == ZonedVolume(agg)
  {
    CellCountsOfZones(agg, Grid);
    GridVolume(agg);
  }

  /** The aggregator gives every topic once. */
  lemma AggregateUnique(rows: seq<Reviews.Row>)
    ensures UniqueTopics(Aggregate(rows))
  {
    var agg := Aggregate(rows);
    AggregateGroups(rows);
    forall i, j | 0 <= i < |agg| && 0 <= j < |agg| && agg[i].topic == agg[j].topic
      ensures i == j
    {
      var names := TopicNames(agg);
      assert names[i] == agg[i].topic && names[j] == agg[j].topic;
    }
  }

  /** A group of prepared rows misses the heatmap exactly when its mean
      satisfaction is -1 (every review scored -1) or its mean significance
      is 0 (every review scored 0). */
  lemma UnzonedGroups(rows: seq<Reviews.Row>)
    requires Reviews.AllDerived(rows)
    ensures forall a :: a in Aggregate(rows) ==>
              (ZoneOf(a).None? <==> a.satisfaction == -1.0 || a.significance == 0.0)
  {
    AggregateMeans(rows);
  }

  lemma {:induction false} ZonedVolumeAll(agg: seq<TopicAgg>)
    requires forall a :: a in agg ==> ZoneOf(a).Some?
    ensures ZonedVolume(agg) == SumVolumes(agg)
    decreases |agg|
  {
    if |agg| > 0 {
      assert agg[0] in agg;
      assert forall a :: a in agg[1..] ==> a in agg;
      ZonedVolumeAll(agg[1..]);
    }
  }

  /** When every group has a zone, the heatmap counts every prepared row
      once. */
  lemma HeatmapOfRows(rows: seq<Reviews.Row>)
    requires forall a :: a in Aggregate(rows) ==> ZoneOf(a).Some?
    ensures CellCounts(Heatmap(Aggregate(rows))) == |rows|
  {
    HeatmapVolume(Aggregate(rows));
    ZonedVolumeAll(Aggregate(rows));
    AggregateVolumes(rows);
  }
}

/**
  The post-processing half of `generate_map`: the synthesized height,
  moisture and temperature fields go through erosion, flow, moisture
  enhancement, biome classification, settlement placement and roads, in
  that order, and are gathered into the map result.
 */
module Generate {
  import Erosion
  import Flow
  import Moisture
  import Biomes
  import Candidates
  import Settlements
  import Roads

  /** The three fields the noise synthesis of lines 128-170 produces. */
  datatype Fields = Fields(heightmap: seq<real>, moisture: seq<real>, temperature: seq<real>)

  /** `MapResult`: the grid size, the seven per-cell layers, the settlements and the road graph. */
  datatype MapResult = MapResult(
    width: nat, height: nat,
    heightmap: seq<real>, flow: seq<nat>, moisture: seq<real>, temperature: seq<real>,
    biome: seq<nat>, water: seq<real>,
    roadGraph: seq<Roads.Road>, settlements: seq<Settlements.Settlement>)

  /** The stand-ins for the floating-point library calls the pipeline makes. */
  datatype Maths = Maths(powf: (real, real) -> real, sqrt: real -> real, unit: bv32 -> real)

  /**
    Lines 172-202. The grid needs at least 2 rows, and at least 2 columns
    from 5 rows on, for the ranges of settlement placement (lines 388-389).
    It needs at least 1 column from 3 rows on when erosion runs (line 211),
    and a nonzero moisture divisor. A grid of fewer than 5 rows, whatever
    its width, gets no settlements and no roads. Each layer of the result
    is the one its stage computes from the layers before it; `cells` and
    `picks` name the cell and the candidate rank of each settlement.
   */
  method GenerateMap(w: nat, h: nat, seed: bv32, seaLevel: real, iterations: nat, moistureScale: real,
                     fields: Fields, maths: Maths)
    returns (m: MapResult, ghost cells: seq<nat>, ghost picks: seq<nat>)
    requires h >= 2 && (h >= 5 ==> w >= 2)
    requires iterations > 0 && h >= 3 ==> w >= 1
    requires |fields.heightmap| == w * h && |fields.moisture| == w * h && |fields.temperature| == w * h
    requires Flow.RunoffCurve(maths.powf)
    requires Moisture.Damping(moistureScale) != 0.0
    ensures m.width == w && m.height == h
    ensures m.heightmap == Erosion.Erode(fields.heightmap, w, h, iterations)
    ensures m.temperature == fields.temperature
    ensures |m.flow| == |m.water| == |m.moisture| == |m.biome| == w * h
    ensures forall i :: 0 <= i < w * h ==> 1 <= m.flow[i] <= w * h
    ensures m.flow == Flow.Catchments(m.heightmap, Flow.DownslopeMap(m.heightmap, w, h))
    ensures m.water == Flow.Water(m.heightmap, m.flow, seaLevel, maths.powf)
    ensures forall i :: 0 <= i < w * h ==> 0.0 <= m.water[i] <= 1.0 && 0.0 <= m.moisture[i] <= 1.0
    ensures forall i :: 0 <= i < w * h ==> (m.water[i] == 1.0 <==> m.heightmap[i] <= seaLevel)
    ensures forall i :: 0 <= i < w * h ==>
      m.moisture[i] == Moisture.Enhance(fields.moisture[i], m.water[i], m.flow[i], Flow.MaxFlow(m.flow), moistureScale)
    ensures forall i :: 0 <= i < w * h ==>
      m.biome[i] == Biomes.Id(Biomes.ClassifyCell(m.heightmap[i], m.water[i], m.temperature[i], m.moisture[i], seaLevel))
    ensures Candidates.Valid(Candidates.Terrain(m.heightmap, m.water, m.moisture, w, h, seaLevel))
    ensures Settlements.Placement(Candidates.Terrain(m.heightmap, m.water, m.moisture, w, h, seaLevel),
                                  seed, maths.sqrt, maths.unit, m.settlements, cells)
    ensures Settlements.Greedy(Candidates.Terrain(m.heightmap, m.water, m.moisture, w, h, seaLevel),
                               maths.sqrt, m.settlements, cells, picks)
    ensures |m.roadGraph| == if |m.settlements| < 2 then 0 else |m.settlements| - 1
    ensures Roads.Grown(m.settlements, maths.sqrt, m.roadGraph)
    ensures |m.settlements| >= 2 ==> forall v: nat :: v < |m.settlements| ==> Roads.Reached(m.roadGraph, v)
    ensures h < 5 ==> m.settlements == [] && m.roadGraph == []
  {
    var heightmap := Erosion.ApplyThermalErosion(fields.heightmap, w, h, iterations);
    var flow, water := Flow.BuildFlowMap(heightmap, w, h, seaLevel, maths.powf);
    var moisture := Moisture.EnhanceMoisture(fields.moisture, water, flow, moistureScale);
    var biome := Biomes.ClassifyBiomes(heightmap, water, fields.temperature, moisture, w, h, seaLevel);
    var terrain := Candidates.Terrain(heightmap, water, moisture, w, h, seaLevel);
    var settlements;
    settlements, cells, picks := Settlements.PlaceSettlements(terrain, seed, maths.sqrt, maths.unit);
    var roads := Roads.BuildRoads(settlements, maths.sqrt);
    m := MapResult(w, h, heightmap, flow, moisture, fields.temperature, biome, water, roads, settlements);
  }
}

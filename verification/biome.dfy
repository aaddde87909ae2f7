/**
  `classify_biomes`: a decision tree over elevation, water, temperature and
  moisture. Ocean, lake and alpine cells are decided first, in that order;
  every other cell falls into one of twelve temperature/moisture bands.
 */
module Biomes {
  import opened Options

  /** The ten biomes, in the order of their `u8` ids 0 to 9. */
  datatype Biome =
    | Ocean | Lake | Tundra | BorealForest | TemperateForest
    | Grassland | TropicalForest | Savanna | Desert | Alpine

  /** The `u8` id written into the biome vector. */
  function Id(b: Biome): (id: nat)
    ensures id <= 9
    ensures FromId(id) == Some(b)
  {
    match b
    case Ocean => 0
    case Lake => 1
    case Tundra => 2
    case BorealForest => 3
    case TemperateForest => 4
    case Grassland => 5
    case TropicalForest => 6
    case Savanna => 7
    case Desert => 8
    case Alpine => 9
  }

  /** The biome an id stands for; ids above 9 stand for none. */
  function FromId(id: nat): Option<Biome> {
    if id == 0 then Some(Ocean)
    else if id == 1 then Some(Lake)
    else if id == 2 then Some(Tundra)
    else if id == 3 then Some(BorealForest)
    else if id == 4 then Some(TemperateForest)
    else if id == 5 then Some(Grassland)
    else if id == 6 then Some(TropicalForest)
    else if id == 7 then Some(Savanna)
    else if id == 8 then Some(Desert)
    else if id == 9 then Some(Alpine)
    else None
  }

  /** Ids `0..=9` and the biomes are in one-to-one correspondence. */
  lemma IdRoundTrip(id: nat)
    ensures FromId(id).Some? <==> id <= 9
    ensures FromId(id).Some? ==> Id(FromId(id).value) == id
  {
  }

  /** A biome of the temperature/moisture bands, neither water nor alpine. */
  predicate Climatic(b: Biome) {
    !(b.Ocean? || b.Lake? || b.Alpine?)
  }

  /** The band tree of lines 336-368. */
  function Climate(temp: real, moist: real): (b: Biome)
    ensures Climatic(b)
    ensures 2 <= Id(b) <= 8
  {
    if temp < 0.2 then Tundra
    else if temp < 0.35 then
      (if moist > 0.4 then BorealForest else Tundra)
    else if temp < 0.55 then
      (if moist > 0.55 then TemperateForest else if moist > 0.35 then Grassland else Desert)
    else if temp < 0.75 then
      (if moist > 0.65 then TemperateForest else if moist > 0.4 then Grassland else Savanna)
    else
      (if moist > 0.7 then TropicalForest else if moist > 0.45 then Savanna else Desert)
  }

  /**
    The biome of one cell (lines 317-370): ocean, lake and alpine are decided
    first, and any other cell takes the biome of the band of the table that
    holds its temperature and moisture.
   */
  function ClassifyCell(elev: real, water: real, temp: real, moist: real, seaLevel: real): (b: Biome)
    ensures b.Ocean? <==> elev <= seaLevel - 0.02
    ensures b.Lake? <==> elev > seaLevel - 0.02 && water > 0.6
    ensures b.Alpine? <==> elev > seaLevel - 0.02 && water <= 0.6 && elev > 0.82
    ensures Climatic(b) <==> elev > seaLevel - 0.02 && water <= 0.6 && elev <= 0.82
    ensures Climatic(b) ==>
      exists k :: 0 <= k < |Bands| && Contains(Bands[k], temp, moist) && Bands[k].biome == b
  {
    ClimateIffBand(temp, moist, Climate(temp, moist));
    if elev <= seaLevel - 0.02 then Ocean
    else if water > 0.6 then Lake
    else if elev > 0.82 then Alpine
    else Climate(temp, moist)
  }

  /** Cells above the sea-level margin with much standing water are lakes, never desert or alpine. */
  lemma WetIsNeverDesertOrAlpine(elev: real, water: real, temp: real, moist: real, seaLevel: real)
    requires water > 0.6
    ensures ClassifyCell(elev, water, temp, moist, seaLevel) != Desert
    ensures ClassifyCell(elev, water, temp, moist, seaLevel) != Alpine
  {
  }

  // ---------------------------------------------------------------------------
  // The bands as a table
  // ---------------------------------------------------------------------------

  /** One end of an interval; `Open` when the band is unbounded on that side. */
  datatype Bound = Open | At(v: real)

  /**
    A rectangle of the temperature/moisture plane: temperatures in
    `[tLo, tHi)` and moistures in `(mLo, mHi]`, the comparisons of the tree.
   */
  datatype Band = Band(tLo: Bound, tHi: Bound, mLo: Bound, mHi: Bound, biome: Biome)

  predicate AtLeast(x: real, b: Bound) { b.Open? || x >= b.v }
  predicate Below(x: real, b: Bound) { b.Open? || x < b.v }
  predicate Above(x: real, b: Bound) { b.Open? || x > b.v }
  predicate AtMost(x: real, b: Bound) { b.Open? || x <= b.v }

  predicate Contains(band: Band, temp: real, moist: real) {
    && AtLeast(temp, band.tLo) && Below(temp, band.tHi)
    && Above(moist, band.mLo) && AtMost(moist, band.mHi)
  }

  /** The twelve bands of the tree, row by row of temperature. */
  const Bands: seq<Band> := [
    Band(Open, At(0.2), Open, Open, Tundra),
    Band(At(0.2), At(0.35), At(0.4), Open, BorealForest),
    Band(At(0.2), At(0.35), Open, At(0.4), Tundra),
    Band(At(0.35), At(0.55), At(0.55), Open, TemperateForest),
    Band(At(0.35), At(0.55), At(0.35), At(0.55), Grassland),
    Band(At(0.35), At(0.55), Open, At(0.35), Desert),
    Band(At(0.55), At(0.75), At(0.65), Open, TemperateForest),
    Band(At(0.55), At(0.75), At(0.4), At(0.65), Grassland),
    Band(At(0.55), At(0.75), Open, At(0.4), Savanna),
    Band(At(0.75), Open, At(0.7), Open, TropicalForest),
    Band(At(0.75), Open, At(0.45), At(0.7), Savanna),
    Band(At(0.75), Open, Open, At(0.45), Desert)
  ]

  /** The band of the table that holds `(temp, moist)`. */
  function BandOf(temp: real, moist: real): (k: nat)
    ensures k < |Bands| && Contains(Bands[k], temp, moist)
  {
    if temp < 0.2 then 0
    else if temp < 0.35 then (if moist > 0.4 then 1 else 2)
    else if temp < 0.55 then (if moist > 0.55 then 3 else if moist > 0.35 then 4 else 5)
    else if temp < 0.75 then (if moist > 0.65 then 6 else if moist > 0.4 then 7 else 8)
    else (if moist > 0.7 then 9 else if moist > 0.45 then 10 else 11)
  }

  /** The bands do not overlap: every point lies in exactly one of them. */
  lemma BandsDisjoint(temp: real, moist: real, j: nat, k: nat)
    requires j < |Bands| && k < |Bands|
    requires Contains(Bands[j], temp, moist) && Contains(Bands[k], temp, moist)
    ensures j == k
  {
  }

  /** The tree picks the biome of the band that holds the point. */
  lemma ClimateIsBand(temp: real, moist: real, k: nat)
    requires k < |Bands| && Contains(Bands[k], temp, moist)
    ensures Climate(temp, moist) == Bands[k].biome
  {
    BandsDisjoint(temp, moist, k, BandOf(temp, moist));
  }

  /** A climate biome is chosen exactly for the points of one of its bands. */
  lemma ClimateIffBand(temp: real, moist: real, b: Biome)
    ensures Climate(temp, moist) == b <==>
      exists k :: 0 <= k < |Bands| && Contains(Bands[k], temp, moist) && Bands[k].biome == b
  {
    var k := BandOf(temp, moist);
    ClimateIsBand(temp, moist, k);
    if exists j :: 0 <= j < |Bands| && Contains(Bands[j], temp, moist) && Bands[j].biome == b {
      var j :| 0 <= j < |Bands| && Contains(Bands[j], temp, moist) && Bands[j].biome == b;
      ClimateIsBand(temp, moist, j);
    }
  }

  /**
    `classify_biomes` over the whole map in index order. The vector has
    `width * height` entries, every one an id in `0..=9`.
   */
  method ClassifyBiomes(hm: seq<real>, water: seq<real>, temp: seq<real>, moist: seq<real>, w: nat, h: nat, seaLevel: real)
    returns (biomes: seq<nat>)
    requires |hm| == w * h && |water| == w * h && |temp| == w * h && |moist| == w * h
    ensures |biomes| == w * h
    ensures forall i :: 0 <= i < |biomes| ==> biomes[i] <= 9
    ensures forall i :: 0 <= i < |biomes| ==>
      biomes[i] == Id(ClassifyCell(hm[i], water[i], temp[i], moist[i], seaLevel))
  {
    biomes := seq(w * h, _ => 0);
    var i := 0;
    while i < |biomes|
      invariant i <= |biomes| == w * h
      invariant forall k :: 0 <= k < i ==>
        biomes[k] == Id(ClassifyCell(hm[k], water[k], temp[k], moist[k], seaLevel))
    {
      var elevation := hm[i];
      if elevation <= seaLevel - 0.02 {
        biomes := biomes[i := 0];
      } else if water[i] > 0.6 {
        biomes := biomes[i := 1];
      } else if elevation > 0.82 {
        biomes := biomes[i := 9];
      } else {
        biomes := biomes[i := Id(Climate(temp[i], moist[i]))];
      }
      i := i + 1;
    }
  }
}

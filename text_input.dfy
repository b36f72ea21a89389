/** `Text.__init__` end to end: the lines are read into the sparse state, the sets become
    lists, the tables become dense NaN-filled arrays, and locations without an id are
    numbered. Opening the file is left out; its lines are the input. */
module TextInput {
  import opened Common
  import opened TextScan
  import opened TextReading
  import opened TextGrid
  import opened LocationIds
  import opened TextScanFacts

  /** A loaded text input: the object's public arrays and lists. */
  class Text {
    var variable: string
    var units: string
    var dates: seq<Val>
    var offsets: seq<Val>
    var quantiles: seq<real>
    var thresholds: seq<real>
    var locations: array<Site>
    var obs: array3<Val>
    var deterministic: array3<Val>
    var pit: Option<array3<Val>>
    var quantileScores: array4<Val>
    var thresholdScores: array4<Val>
    /** The listed locations before numbering, and the creation position of each. */
    ghost var listed: seq<Site>
    ghost var order: seq<int>

    /** The dense pass: the object keeps the lists and numbered locations it is given, and
        each sparse table of `s` becomes a NaN-filled array indexed by those lists. */
    constructor (s: Scan, dates: seq<Val>, offsets: seq<Val>, quantiles: seq<real>, thresholds: seq<real>,
      locations: array<Site>, listed: seq<Site>, ghost order: seq<int>)
      ensures this.variable == s.variable && this.units == s.units
      ensures this.dates == dates && this.offsets == offsets
      ensures this.quantiles == quantiles && this.thresholds == thresholds
      ensures this.locations == locations && this.listed == listed && this.order == order
      ensures fresh(obs) && fresh(deterministic) && fresh(quantileScores) && fresh(thresholdScores)
      ensures GridsOf(this, s)
    {
      variable, units := s.variable, s.units;
      this.dates, this.offsets := dates, offsets;
      this.quantiles, this.thresholds := quantiles, thresholds;
      this.locations, this.listed, this.order := locations, listed, order;
      var observed := Grid(dates, offsets, listed, s.tables.obs);
      var forecast := Grid(dates, offsets, listed, s.tables.fcst);
      var pits: Option<array3<Val>> := None;
      if |s.tables.pit| != 0 {
        var grid := Grid(dates, offsets, listed, s.tables.pit);
        pits := Some(grid);
      }
      var byQuantile := LevelGrid(dates, offsets, listed, quantiles, s.tables.x);
      var byThreshold := LevelGrid(dates, offsets, listed, thresholds, s.tables.cdf);
      obs, deterministic, pit := observed, forecast, pits;
      quantileScores, thresholdScores := byQuantile, byThreshold;
    }
  }

  /** The lists of a loaded text are those of the scan's sets, and its locations are the
      created ones in some order, numbered. */
  ghost predicate ListsOf(t: Text, s: Scan)
    reads t, t.locations
  {
    && t.variable == s.variable && t.units == s.units
    && Lists(t.dates, s.dates) && Lists(t.offsets, s.offsets)
    && Lists(t.quantiles, s.tables.quantiles) && Lists(t.thresholds, s.tables.thresholds)
    && |t.order| == |s.sites| && Distinct(t.order)
    && (forall k | 0 <= k < |t.order| :: 0 <= t.order[k] < |s.sites|)
    && (forall i | 0 <= i < |s.sites| :: i in t.order)
    && |t.listed| == |s.sites| && (forall k | 0 <= k < |t.order| :: t.listed[k] == s.sites[t.order[k]])
    && t.locations.Length == |t.listed|
    && (forall k | 0 <= k < |t.listed| :: t.locations[k] == Numbered(t.listed, k))
  }

  /** A dense array indexed by the lists of `t`, holding the entries of `table`. */
  ghost predicate GridOf(t: Text, a: array3<Val>, table: map<Key, Val>)
    reads t, a
  {
    && a.Length0 == |t.dates| && a.Length1 == |t.offsets| && a.Length2 == |t.listed|
    && forall d, o, l | 0 <= d < |t.dates| && 0 <= o < |t.offsets| && 0 <= l < |t.listed| ::
      a[d, o, l] == Cell(table, KeyAt(t.dates[d], t.offsets[o], t.listed[l]))
  }

  ghost predicate LevelGridOf(t: Text, a: array4<Val>, levels: seq<real>, table: map<LevelKey, Val>)
    reads t, a
  {
    && a.Length0 == |t.dates| && a.Length1 == |t.offsets| && a.Length2 == |t.listed| && a.Length3 == |levels|
    && forall d, o, l, q | 0 <= d < |t.dates| && 0 <= o < |t.offsets| && 0 <= l < |t.listed| && 0 <= q < |levels| ::
      a[d, o, l, q] == Cell(table, LevelKey(KeyAt(t.dates[d], t.offsets[o], t.listed[l]), levels[q]))
  }

  /** The dense arrays of a loaded text; the pit array exists only when some row had a pit. */
  ghost predicate GridsOf(t: Text, s: Scan)
    reads t, t.obs, t.deterministic, t.quantileScores, t.thresholdScores
    reads if t.pit.Some? then {t.pit.value} else {}
  {
    && GridOf(t, t.obs, s.tables.obs)
    && GridOf(t, t.deterministic, s.tables.fcst)
    && (t.pit.Some? <==> |s.tables.pit| != 0)
    && (t.pit.Some? ==> GridOf(t, t.pit.value, s.tables.pit))
    && LevelGridOf(t, t.quantileScores, t.quantiles, s.tables.x)
    && LevelGridOf(t, t.thresholdScores, t.thresholds, s.tables.cdf)
  }

  /** Reading a text file: it fails exactly when the row loop raises, with that error;
      otherwise the lists, grids and numbered locations are those of the scanned state. */
  method Load(lines: seq<string>) returns (r: Result<Text>)
    ensures r.Failure? <==> ScanLines(lines).Failure?
    ensures r.Failure? ==> r.error == ScanLines(lines).error
    ensures r.Success? ==> fresh(r.value) && fresh(r.value.locations)
    ensures r.Success? ==> ListsOf(r.value, ScanLines(lines).value) && GridsOf(r.value, ScanLines(lines).value)
  {
    var reader, err := ReadLines(lines);
    if err.Some? {
      return Failure(err.value);
    }
    var text := Build(reader.State());
    return Success(text);
  }

  /** The part of `Text.__init__` after the row loop: lists, dense arrays and ids. */
  method Build(s: Scan) returns (text: Text)
    ensures fresh(text) && fresh(text.locations)
    ensures ListsOf(text, s) && GridsOf(text, s)
  {
    var dates := ListOf(s.dates);
    var offsets := ListOf(s.offsets);
    var sites, order := ListLocations(s.sites);
    var quantiles := ListOf(s.tables.quantiles);
    var thresholds := ListOf(s.tables.thresholds);
    var locations := new Site[|sites|](k requires 0 <= k < |sites| => sites[k]);
    assert locations[..] == sites;
    AssignIds(locations);
    text := new Text(s, dates, offsets, quantiles, thresholds, locations, sites, order);
  }

  /** Some cell of the dense array `a` has coordinates `k` and holds `v`. */
  ghost predicate InGrid(t: Text, a: array3<Val>, k: Key, v: Val)
    reads t, a
  {
    exists d, o, l | 0 <= d < |t.dates| && 0 <= o < |t.offsets| && 0 <= l < |t.listed| ::
      KeyAt(t.dates[d], t.offsets[o], t.listed[l]) == k && a.Length0 == |t.dates| && a.Length1 == |t.offsets|
      && a.Length2 == |t.listed| && a[d, o, l] == v
  }

  /** Some cell of the level array `a` has coordinates and level `k` and holds `v`. */
  ghost predicate InLevelGrid(t: Text, a: array4<Val>, levels: seq<real>, k: LevelKey, v: Val)
    reads t, a
  {
    exists d, o, l, q | 0 <= d < |t.dates| && 0 <= o < |t.offsets| && 0 <= l < |t.listed| && 0 <= q < |levels| ::
      LevelKey(KeyAt(t.dates[d], t.offsets[o], t.listed[l]), levels[q]) == k && a.Length0 == |t.dates|
      && a.Length1 == |t.offsets| && a.Length2 == |t.listed| && a.Length3 == |levels| && a[d, o, l, q] == v
  }

  /** A placed key's date, offset and location are found in the text's lists. */
  lemma PlacedListed(t: Text, s: Scan, k: Key) returns (d: nat, o: nat, l: nat)
    requires ListsOf(t, s) && Placed(s, k)
    ensures d < |t.dates| && o < |t.offsets| && l < |t.listed|
    ensures KeyAt(t.dates[d], t.offsets[o], t.listed[l]) == k
  {
    var i :| 0 <= i < |s.sites| && KeyAt(k.date, k.offset, s.sites[i]) == k;
    assert i in t.order;
    l :| 0 <= l < |t.order| && t.order[l] == i;
    assert k.date in t.dates && k.offset in t.offsets;
    d :| 0 <= d < |t.dates| && t.dates[d] == k.date;
    o :| 0 <= o < |t.offsets| && t.offsets[o] == k.offset;
  }

  /** A placed entry of a sparse table is in the array built from it. */
  lemma EntryInGrid(t: Text, s: Scan, a: array3<Val>, table: map<Key, Val>, k: Key)
    requires ListsOf(t, s) && GridOf(t, a, table) && Placed(s, k) && k in table
    ensures InGrid(t, a, k, table[k])
  {
    var d, o, l := PlacedListed(t, s, k);
    assert a[d, o, l] == table[k];
  }

  /** A placed entry of a level table, at a listed level, is in the array built from it. */
  lemma EntryInLevelGrid(t: Text, s: Scan, a: array4<Val>, levels: seq<real>, table: map<LevelKey, Val>, k: LevelKey)
    requires ListsOf(t, s) && LevelGridOf(t, a, levels, table) && Placed(s, k.key) && k in table && k.level in levels
    ensures InLevelGrid(t, a, levels, k, table[k])
  {
    var d, o, l := PlacedListed(t, s, k.key);
    var q :| 0 <= q < |levels| && levels[q] == k.level;
    assert a[d, o, l, q] == table[k];
  }

  /** Nothing read is lost by the dense pass: every stored obs, fcst, pit, quantile and
      threshold value sits in the array cell of its date, offset, location and level. */
  lemma LoadKeepsEntries(lines: seq<string>, t: Text)
    requires ScanLines(lines).Success?
    requires ListsOf(t, ScanLines(lines).value) && GridsOf(t, ScanLines(lines).value)
    ensures var s := ScanLines(lines).value;
      && (forall k | k in s.tables.obs :: InGrid(t, t.obs, k, s.tables.obs[k]))
      && (forall k | k in s.tables.fcst :: InGrid(t, t.deterministic, k, s.tables.fcst[k]))
      && (forall k | k in s.tables.pit :: t.pit.Some? && InGrid(t, t.pit.value, k, s.tables.pit[k]))
      && (forall k | k in s.tables.x :: InLevelGrid(t, t.quantileScores, t.quantiles, k, s.tables.x[k]))
      && (forall k | k in s.tables.cdf :: InLevelGrid(t, t.thresholdScores, t.thresholds, k, s.tables.cdf[k]))
  {
    var s := ScanLines(lines).value;
    LoadCovered(lines);
    forall k | k in s.tables.obs
      ensures InGrid(t, t.obs, k, s.tables.obs[k])
    {
      EntryInGrid(t, s, t.obs, s.tables.obs, k);
    }
    forall k | k in s.tables.fcst
      ensures InGrid(t, t.deterministic, k, s.tables.fcst[k])
    {
      EntryInGrid(t, s, t.deterministic, s.tables.fcst, k);
    }
    forall k | k in s.tables.pit
      ensures t.pit.Some? && InGrid(t, t.pit.value, k, s.tables.pit[k])
    {
      EntryInGrid(t, s, t.pit.value, s.tables.pit, k);
    }
    forall k | k in s.tables.x
      ensures InLevelGrid(t, t.quantileScores, t.quantiles, k, s.tables.x[k])
    {
      EntryInLevelGrid(t, s, t.quantileScores, t.quantiles, s.tables.x, k);
    }
    forall k | k in s.tables.cdf
      ensures InLevelGrid(t, t.thresholdScores, t.thresholds, k, s.tables.cdf[k])
    {
      EntryInLevelGrid(t, s, t.thresholdScores, t.thresholds, s.tables.cdf, k);
    }
  }

  /** Listing the locations in another order keeps their ids unique. */
  lemma ListedIdsUnique(t: Text, s: Scan)
    requires ListsOf(t, s) && UniqueIds(s.sites)
    ensures UniqueIds(t.listed)
  {
    forall i, j | 0 <= i < j < |t.listed| && t.listed[i].id.Some?
      ensures t.listed[i].id != t.listed[j].id
    {
      assert t.order[i] != t.order[j];
    }
  }

  /** After loading, every location has an id and no two share one: ids read from the file
      are unique per location, and the numbered ones come after all of them. */
  lemma LoadedIdsDistinct(lines: seq<string>, t: Text)
    requires ScanLines(lines).Success? && ListsOf(t, ScanLines(lines).value)
    ensures forall i | 0 <= i < t.locations.Length :: t.locations[i].id.Some?
    ensures forall i, j | 0 <= i < j < t.locations.Length :: t.locations[i].id != t.locations[j].id
  {
    ListedIdsUnique(t, ScanLines(lines).value);
    NumberedIdsDistinct(t.listed);
  }
}

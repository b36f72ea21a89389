/** The row loop of `Text.__init__` as a function of the lines read so far: each line
    takes the scanner's state (metadata, header, seen coordinates, the per-id location
    table and the sparse value tables) to a new state, or aborts the load. The
    imperative reader in `TextReader` is proved to compute exactly this. */
module TextScan {
  import opened Common
  import opened Strings
  import opened Numbers
  import opened TextFields

  /** A location as created by the reader; its coordinates never hold NaN. */
  datatype Site = Site(id: Val, lat: real, lon: real, elev: real)

  /** The key of the obs, fcst and pit tables: (date, offset, lat, lon, elev). */
  datatype Key = Key(date: Val, offset: Val, lat: real, lon: real, elev: real)

  /** The key of the quantile and threshold tables: a key and the column's level. */
  datatype LevelKey = LevelKey(key: Key, level: real)

  function KeyAt(date: Val, offset: Val, site: Site): Key
  {
    Key(date, offset, site.lat, site.lon, site.elev)
  }

  /** Everything the row loop keeps between lines. */
  datatype Scan = Scan(
    variable: string,
    units: string,
    ignored: nat,              // comment lines reported as ignored
    header: Option<seq<string>>,
    indices: map<string, nat>,
    dates: set<Val>,
    offsets: set<Val>,
    sites: seq<Site>,          // `_locations`, in creation order
    info: map<Val, Site>,      // `locationInfo`
    conflictShown: bool,
    conflictWarnings: nat,     // conflicting-coordinates warnings issued
    tables: Tables)

  /** The sparse value tables and the levels seen in quantile and threshold columns. */
  datatype Tables = Tables(
    quantiles: set<real>,
    thresholds: set<real>,
    obs: map<Key, Val>,
    fcst: map<Key, Val>,
    pit: map<Key, Val>,
    x: map<LevelKey, Val>,
    cdf: map<LevelKey, Val>)

  const NoTables: Tables := Tables({}, {}, map[], map[], map[], map[], map[])

  /** The state before the first line, with the reader's defaults for metadata. */
  const Initial: Scan := Scan("Unknown", "Unknown units", 0, None, map[], {}, {}, [], map[],
    false, 0, NoTables)

  predicate IsComment(line: string)
  {
    |line| > 0 && line[0] == '#'
  }

  /** A header has been read, holds `obs` and `fcst`, and indexes every column. */
  predicate Ready(s: Scan)
  {
    && s.header.Some?
    && Tokens(s.header.value)
    && s.indices == HeaderMap(s.header.value)
    && "obs" in s.indices && "fcst" in s.indices
    && (forall c | c in s.indices :: s.indices[c] < |s.header.value|)
    && (forall i | 0 <= i < |s.header.value| :: s.header.value[i] in s.indices)
  }

  /** What holds between lines: a header is ready once read; at most one conflict warning
      has been issued, exactly when the flag is set; every table entry refers to the
      location of its id; and locations with an id are created once per id. */
  predicate Consistent(s: Scan)
  {
    && (s.header.Some? ==> Ready(s))
    && (s.header.None? ==> s.sites == [] && s.info == map[])
    && s.conflictWarnings == (if s.conflictShown then 1 else 0)
    && (forall id | id in s.info :: s.info[id] in s.sites && s.info[id].id == id)
    && (forall i | 0 <= i < |s.sites| && s.sites[i].id.Some? ::
          s.sites[i].id in s.info && s.info[s.sites[i].id] == s.sites[i])
    && UniqueIds(s.sites)
  }

  /** No two locations share an id (locations without one are not compared). */
  predicate UniqueIds(sites: seq<Site>)
  {
    forall i, j | 0 <= i < j < |sites| && sites[i].id.Some? :: sites[i].id != sites[j].id
  }

  /** A comment line: `variable:` sets the variable name to the rest of the line,
      `units:` sets the units to the next word, any other comment is reported and
      skipped. An empty comment, or `units:` with no word after it, raises. */
  function ScanComment(s: Scan, words: seq<string>): (r: Result<Scan>)
    ensures r.Failure? <==> words == [] || (words[0] == "units:" && |words| < 2)
    ensures r.Success? && words[0] == "variable:" ==> r.value == s.(variable := JoinSpaces(words[1..]))
    ensures r.Success? && words[0] == "units:" ==> r.value == s.(units := words[1])
    ensures r.Success? && words[0] != "variable:" && words[0] != "units:" ==> r.value == s.(ignored := s.ignored + 1)
  {
    if words == [] then Failure(MalformedComment)
    else if words[0] == "variable:" then Success(s.(variable := JoinSpaces(words[1..])))
    else if words[0] == "units:" then
      (if |words| < 2 then Failure(MalformedComment) else Success(s.(units := words[1])))
    else Success(s.(ignored := s.ignored + 1))
  }

  /** The header line: its columns become the index map; `obs` and then `fcst` must be present. */
  function ScanHeader(s: Scan, row: seq<string>): (r: Result<Scan>)
    requires Tokens(row)
    ensures r.Failure? <==> "obs" !in row || "fcst" !in row
    ensures r.Failure? ==> r.error == MissingColumn(if "obs" !in row then "obs" else "fcst")
    ensures r.Success? ==> r.value == s.(header := Some(row), indices := HeaderMap(row)) && Ready(r.value)
  {
    HeaderMapLast(row);
    var indices := HeaderMap(row);
    if "obs" !in indices then Failure(MissingColumn("obs"))
    else if "fcst" !in indices then Failure(MissingColumn("fcst"))
    else Success(s.(header := Some(row), indices := indices))
  }

  /** The cell of a named column, or `default` when the header has no such column. */
  function Column(s: Scan, row: seq<string>, name: string, default: Val): (r: Result<Val>)
    requires Ready(s) && |row| == |s.header.value|
    ensures name !in s.indices ==> r == Success(default)
    ensures name in s.indices ==> r == Clean(row[s.indices[name]])
    ensures r.Failure? ==> r.error.NotANumber?
  {
    if name in s.indices then Clean(row[s.indices[name]]) else Success(default)
  }

  /** The six coordinate cells of a row, as far as the header has them. */
  datatype Head = Head(date: Val, offset: Val, id: Val, lat: Val, lon: Val, elev: Val)

  /** The coordinate columns a row may have. */
  const HeadColumns: set<string> := {"date", "offset", "id", "lat", "lon", "elev"}

  /** Date and offset default to 0 and the others to NaN; they are read in this order. */
  function ReadHead(s: Scan, row: seq<string>): (r: Result<Head>)
    requires Ready(s) && |row| == |s.header.value|
    ensures r.Success? && "date" !in s.indices ==> r.value.date == Some(0.0)
    ensures r.Success? && "offset" !in s.indices ==> r.value.offset == Some(0.0)
    ensures r.Success? && "id" !in s.indices ==> r.value.id == None
    ensures r.Failure? ==> r.error.NotANumber?
  {
    var date :- Column(s, row, "date", Some(0.0));
    var offset :- Column(s, row, "offset", Some(0.0));
    var id :- Column(s, row, "id", None);
    var lat :- Column(s, row, "lat", None);
    var lon :- Column(s, row, "lon", None);
    var elev :- Column(s, row, "elev", None);
    Success(Head(date, offset, id, lat, lon, elev))
  }

  /** A row's coordinates are the cells of its coordinate columns, with date and offset 0
      and the others NaN where the header lacks the column. */
  lemma ReadHeadReads(s: Scan, row: seq<string>)
    requires Ready(s) && |row| == |s.header.value|
    ensures ReadHead(s, row).Success? ==>
      var head := ReadHead(s, row).value;
      && Column(s, row, "date", Some(0.0)) == Success(head.date)
      && Column(s, row, "offset", Some(0.0)) == Success(head.offset)
      && Column(s, row, "id", None) == Success(head.id)
      && Column(s, row, "lat", None) == Success(head.lat)
      && Column(s, row, "lon", None) == Success(head.lon)
      && Column(s, row, "elev", None) == Success(head.elev)
  {
    var date, offset := Column(s, row, "date", Some(0.0)), Column(s, row, "offset", Some(0.0));
    var id, lat := Column(s, row, "id", None), Column(s, row, "lat", None);
    var lon, elev := Column(s, row, "lon", None), Column(s, row, "elev", None);
    if date.Success? && offset.Success? && id.Success? && lat.Success? && lon.Success? && elev.Success? {
      assert ReadHead(s, row) == Success(Head(date.value, offset.value, id.value, lat.value, lon.value, elev.value));
    }
  }

  /** Reading a row's coordinates raises exactly when one of its coordinate cells is not
      a number. */
  lemma ReadHeadFails(s: Scan, row: seq<string>)
    requires Ready(s) && |row| == |s.header.value|
    ensures ReadHead(s, row).Failure? <==> exists c | c in s.indices && c in HeadColumns :: Clean(row[s.indices[c]]).Failure?
  {
  }

  function Abs(v: real): real { if v < 0.0 then -v else v }

  /** A row's coordinates disagree with the stored location of its id: lat or lon by more
      than 0.0001, or elev by more than 0.001, NaN cells being ignored. */
  predicate Conflicts(site: Site, lat: Val, lon: Val, elev: Val)
  {
    || (lat.Some? && Abs(lat.value - site.lat) > 0.0001)
    || (lon.Some? && Abs(lon.value - site.lon) > 0.0001)
    || (elev.Some? && Abs(elev.value - site.elev) > 0.001)
  }

  function OrZero(v: Val): real { if v.Some? then v.value else 0.0 }

  /** The location lookup: a known id keeps the location of its first row (and a first
      conflict is reported once); a NaN id or a new id creates a location, with NaN
      coordinates read as 0, and makes it the id's entry. */
  function Locate(s: Scan, id: Val, lat: Val, lon: Val, elev: Val): (r: Scan)
    ensures id in r.info
    ensures id.Some? && id in s.info ==> r.info == s.info && r.sites == s.sites
    ensures !(id.Some? && id in s.info) ==>
      var site := Site(id, OrZero(lat), OrZero(lon), OrZero(elev));
      r.sites == s.sites + [site] && r.info == s.info[id := site]
    ensures r.conflictShown == (s.conflictShown ||
      (id.Some? && id in s.info && Conflicts(s.info[id], lat, lon, elev)))
  {
    if id.Some? && id in s.info then
      if !s.conflictShown && Conflicts(s.info[id], lat, lon, elev) then
        s.(conflictShown := true, conflictWarnings := s.conflictWarnings + 1)
      else s
    else
      var site := Site(id, OrZero(lat), OrZero(lon), OrZero(elev));
      s.(sites := s.sites + [site], info := s.info[id := site])
  }

  /** `float(field[1:])`: the level a quantile or threshold column stands for. */
  function Level(field: string): (r: Result<real>)
    requires |field| > 0
    ensures r.Failure? <==> ParseDecimal(field[1..]).None?
    ensures r.Failure? ==> r.error == NotANumber(field[1..])
    ensures r.Success? ==> r.value == Value(ParseDecimal(field[1..]).value)
  {
    match ParseDecimal(field[1..])
    case None => Failure(NotANumber(field[1..]))
    case Some(d) => Success(Value(d))
  }

  /** Columns of the header, each with a name to take a level from. */
  predicate Indexed(s: Scan, fields: seq<string>)
  {
    forall i | 0 <= i < |fields| :: fields[i] in s.indices && |fields[i]| > 0
  }

  lemma LevelFieldsIndexed(s: Scan)
    requires Ready(s)
    ensures Indexed(s, QuantileFields(s.header.value)) && Indexed(s, ThresholdFields(s.header.value))
  {
    var header := s.header.value;
    forall f | f in header ensures f in s.indices && |f| > 0 {
      var i :| 0 <= i < |header| && header[i] == f;
    }
    var q := QuantileFields(header);
    assert forall i | 0 <= i < |q| :: q[i] in header;
    var t := ThresholdFields(header);
    assert forall i | 0 <= i < |t| :: t[i] in header;
  }

  /** A set of levels and the table of level-keyed values. */
  datatype Levels = Levels(levels: set<real>, table: map<LevelKey, Val>)

  /** The loop over quantile (or threshold) columns of one row: each column adds its
      level and stores its cell under (key, level). */
  function StoreLevels(s: Scan, row: seq<string>, fields: seq<string>, key: Key, acc: Levels): (r: Result<Levels>)
    requires Ready(s) && |row| == |s.header.value|
    requires Indexed(s, fields)
    ensures r.Success? ==> acc.levels <= r.value.levels && acc.table.Keys <= r.value.table.Keys
    ensures r.Success? ==> forall k | k in r.value.table && k !in acc.table :: k.key == key && k.level in r.value.levels
    ensures r.Failure? ==> r.error.NotANumber?
  {
    if fields == [] then Success(acc)
    else
      var before :- StoreLevels(s, row, fields[..|fields| - 1], key, acc);
      var field := fields[|fields| - 1];
      var level :- Level(field);
      var value :- Clean(row[s.indices[field]]);
      Success(Levels(before.levels + {level}, before.table[LevelKey(key, level) := value]))
  }

  /** Field `i` names a level that no later field names, so its cell is the one kept. */
  predicate LastOfLevel(fields: seq<string>, i: int)
  {
    && 0 <= i < |fields| && |fields[i]| > 0
    && forall j | i < j < |fields| && |fields[j]| > 0 :: Level(fields[j]) != Level(fields[i])
  }

  /** The levels that the fields name. */
  ghost function LevelsOf(fields: seq<string>): set<real>
  {
    if fields == [] then {}
    else
      var f := fields[|fields| - 1];
      LevelsOf(fields[..|fields| - 1]) + (if |f| > 0 && Level(f).Success? then {Level(f).value} else {})
  }

  /** What storing the level columns of a row does: every field's level and cell are
      numbers; the levels are added; the table gains (key, level) for each of them and
      holds, for each level, the cell of the last field naming it; every other entry
      keeps its value. */
  ghost predicate LevelsStored(s: Scan, row: seq<string>, fields: seq<string>, key: Key, acc: Levels, out: Levels)
  {
    && (forall i | 0 <= i < |fields| ::
          && fields[i] in s.indices && s.indices[fields[i]] < |row| && |fields[i]| > 0
          && Level(fields[i]).Success? && Clean(row[s.indices[fields[i]]]).Success?)
    && out.levels == acc.levels + LevelsOf(fields)
    && (forall k :: k in out.table <==> k in acc.table || (k.key == key && k.level in LevelsOf(fields)))
    && (forall k | k in acc.table && !(k.key == key && k.level in LevelsOf(fields)) ::
          k in out.table && out.table[k] == acc.table[k])
    && (forall i | 0 <= i < |fields| && LastOfLevel(fields, i) ::
          && LevelKey(key, Level(fields[i]).value) in out.table
          && out.table[LevelKey(key, Level(fields[i]).value)] == Clean(row[s.indices[fields[i]]]).value)
  }

  /** One more level column: its level is added and its cell stored under (key, level). */
  lemma LevelsStoredStep(s: Scan, row: seq<string>, init: seq<string>, f: string, key: Key,
    acc: Levels, before: Levels)
    requires LevelsStored(s, row, init, key, acc, before)
    requires f in s.indices && s.indices[f] < |row| && |f| > 0
    requires Level(f).Success? && Clean(row[s.indices[f]]).Success?
    ensures var l := Level(f).value;
      LevelsStored(s, row, init + [f], key, acc,
        Levels(before.levels + {l}, before.table[LevelKey(key, l) := Clean(row[s.indices[f]]).value]))
  {
    var fields := init + [f];
    var l := Level(f).value;
    var v := Clean(row[s.indices[f]]).value;
    var out := Levels(before.levels + {l}, before.table[LevelKey(key, l) := v]);
    assert forall i | 0 <= i < |init| :: fields[i] == init[i];
    assert fields[|init|] == f;
    forall i | 0 <= i < |fields|
      ensures && fields[i] in s.indices && s.indices[fields[i]] < |row| && |fields[i]| > 0
              && Level(fields[i]).Success? && Clean(row[s.indices[fields[i]]]).Success?
    {
      if i < |init| {
        assert fields[i] == init[i];
      }
    }
    assert LevelsOf(fields) == LevelsOf(init) + {l} by {
      assert fields[..|fields| - 1] == init;
    }
    assert out.levels == acc.levels + LevelsOf(fields);
    forall k | k in acc.table && !(k.key == key && k.level in LevelsOf(fields))
      ensures k in out.table && out.table[k] == acc.table[k]
    {
      assert k != LevelKey(key, l);
    }
    forall k ensures k in out.table <==> k in acc.table || (k.key == key && k.level in LevelsOf(fields)) {
      assert k in before.table <==> k in acc.table || (k.key == key && k.level in LevelsOf(init));
    }
    LastCellsStep(s, row, init, f, key, before.table);
    assert forall i | 0 <= i < |fields| && LastOfLevel(fields, i) ::
          && LevelKey(key, Level(fields[i]).value) in out.table
          && out.table[LevelKey(key, Level(fields[i]).value)] == Clean(row[s.indices[fields[i]]]).value;
    assert LevelsStored(s, row, fields, key, acc, out);
  }

  /** One more level column keeps, for each level, the cell of the last field naming it. */
  lemma LastCellsStep(s: Scan, row: seq<string>, init: seq<string>, f: string, key: Key,
    before: map<LevelKey, Val>)
    requires forall i | 0 <= i < |init| ::
      && init[i] in s.indices && s.indices[init[i]] < |row| && |init[i]| > 0
      && Level(init[i]).Success? && Clean(row[s.indices[init[i]]]).Success?
    requires forall i | 0 <= i < |init| && LastOfLevel(init, i) ::
      && LevelKey(key, Level(init[i]).value) in before
      && before[LevelKey(key, Level(init[i]).value)] == Clean(row[s.indices[init[i]]]).value
    requires f in s.indices && s.indices[f] < |row| && |f| > 0
    requires Level(f).Success? && Clean(row[s.indices[f]]).Success?
    ensures var fields := init + [f];
      var out := before[LevelKey(key, Level(f).value) := Clean(row[s.indices[f]]).value];
      forall i | 0 <= i < |fields| && LastOfLevel(fields, i) ::
        && fields[i] in s.indices && s.indices[fields[i]] < |row| && Level(fields[i]).Success?
        && LevelKey(key, Level(fields[i]).value) in out
        && out[LevelKey(key, Level(fields[i]).value)] == Clean(row[s.indices[fields[i]]]).value
  {
    var fields := init + [f];
    var out := before[LevelKey(key, Level(f).value) := Clean(row[s.indices[f]]).value];
    forall i | 0 <= i < |fields| && LastOfLevel(fields, i)
      ensures && fields[i] in s.indices && s.indices[fields[i]] < |row| && Level(fields[i]).Success?
              && LevelKey(key, Level(fields[i]).value) in out
              && out[LevelKey(key, Level(fields[i]).value)] == Clean(row[s.indices[fields[i]]]).value
    {
      if i < |init| {
        assert fields[i] == init[i];
        assert Level(fields[|init|]) != Level(fields[i]);
        assert LastOfLevel(init, i) by {
          forall j | i < j < |init| && |init[j]| > 0 ensures Level(init[j]) != Level(init[i]) {
            assert fields[j] == init[j];
          }
        }
      }
    }
  }

  /** The loop over level columns stores what `LevelsStored` says. */
  lemma {:induction false} StoreLevelsStores(s: Scan, row: seq<string>, fields: seq<string>, key: Key, acc: Levels)
    requires Ready(s) && |row| == |s.header.value| && Indexed(s, fields)
    requires StoreLevels(s, row, fields, key, acc).Success?
    ensures LevelsStored(s, row, fields, key, acc, StoreLevels(s, row, fields, key, acc).value)
  {
    if fields != [] {
      var init := fields[..|fields| - 1];
      var f := fields[|fields| - 1];
      SplitLast(fields);
      assert Indexed(s, init) by {
        assert forall i | 0 <= i < |init| :: init[i] == fields[i];
      }
      StoreLevelsStores(s, row, init, key, acc);
      LevelsStoredStep(s, row, init, f, key, acc, StoreLevels(s, row, init, key, acc).value);
    }
  }

  /** A level table after one row: nothing is lost, and every new entry is for the row's
      key at a level that has been recorded. */
  predicate LevelsAdded(levels: set<real>, table: map<LevelKey, Val>, levels2: set<real>, table2: map<LevelKey, Val>, key: Key)
  {
    && levels <= levels2
    && table.Keys <= table2.Keys
    && forall k | k in table2 && k !in table :: k.key == key && k.level in levels2
  }

  /** The quantile columns and then the threshold columns of a row stored under its key. */
  function StoreLevelTables(s: Scan, row: seq<string>, key: Key, t: Tables): (r: Result<Tables>)
    requires Ready(s) && |row| == |s.header.value|
    ensures r.Success? ==> r.value.obs == t.obs && r.value.fcst == t.fcst && r.value.pit == t.pit
    ensures r.Success? ==> LevelsAdded(t.quantiles, t.x, r.value.quantiles, r.value.x, key)
    ensures r.Success? ==> LevelsAdded(t.thresholds, t.cdf, r.value.thresholds, r.value.cdf, key)
    ensures r.Failure? ==> r.error.NotANumber?
  {
    var header := s.header.value;
    LevelFieldsIndexed(s);
    var q :- StoreLevels(s, row, QuantileFields(header), key, Levels(t.quantiles, t.x));
    var p :- StoreLevels(s, row, ThresholdFields(header), key, Levels(t.thresholds, t.cdf));
    Success(t.(quantiles := q.levels, x := q.table, thresholds := p.levels, cdf := p.table))
  }

  /** The value columns of a row stored under its key: obs, fcst, pit when present, then
      the quantile columns and the threshold columns. */
  function StoreValues(s: Scan, row: seq<string>, key: Key, t: Tables): (r: Result<Tables>)
    requires Ready(s) && |row| == |s.header.value|
    ensures r.Success? ==> r.value.obs.Keys == t.obs.Keys + {key} && r.value.fcst.Keys == t.fcst.Keys + {key}
    ensures r.Success? ==> r.value.pit.Keys == t.pit.Keys + (if "pit" in s.indices then {key} else {})
    ensures r.Success? ==> LevelsAdded(t.quantiles, t.x, r.value.quantiles, r.value.x, key)
    ensures r.Success? ==> LevelsAdded(t.thresholds, t.cdf, r.value.thresholds, r.value.cdf, key)
    ensures r.Failure? ==> r.error.NotANumber?
  {
    var obs :- Clean(row[s.indices["obs"]]);
    var fcst :- Clean(row[s.indices["fcst"]]);
    var pit :- Column(s, row, "pit", None);
    StoreLevelTables(s, row, key, t.(obs := t.obs[key := obs], fcst := t.fcst[key := fcst],
      pit := if "pit" in s.indices then t.pit[key := pit] else t.pit))
  }

  /** What a row stores: obs and fcst (and pit, when the header has it) hold the row's
      cleaned cells under its key, and every other key keeps its value; the quantile and
      threshold tables hold what `LevelsStored` says. */
  lemma StoreValuesStores(s: Scan, row: seq<string>, key: Key, t: Tables)
    requires Ready(s) && |row| == |s.header.value| && StoreValues(s, row, key, t).Success?
    ensures var r := StoreValues(s, row, key, t).value;
      && Clean(row[s.indices["obs"]]).Success? && Clean(row[s.indices["fcst"]]).Success?
      && r.obs == t.obs[key := Clean(row[s.indices["obs"]]).value]
      && r.fcst == t.fcst[key := Clean(row[s.indices["fcst"]]).value]
      && r.pit == (if "pit" in s.indices then t.pit[key := Clean(row[s.indices["pit"]]).value] else t.pit)
    ensures var r := StoreValues(s, row, key, t).value;
      && LevelsStored(s, row, QuantileFields(s.header.value), key, Levels(t.quantiles, t.x), Levels(r.quantiles, r.x))
      && LevelsStored(s, row, ThresholdFields(s.header.value), key, Levels(t.thresholds, t.cdf), Levels(r.thresholds, r.cdf))
  {
    LevelFieldsIndexed(s);
    var obs := Clean(row[s.indices["obs"]]).value;
    var fcst := Clean(row[s.indices["fcst"]]).value;
    var pit := Column(s, row, "pit", None).value;
    var t' := t.(obs := t.obs[key := obs], fcst := t.fcst[key := fcst],
      pit := if "pit" in s.indices then t.pit[key := pit] else t.pit);
    StoreLevelsStores(s, row, QuantileFields(s.header.value), key, Levels(t'.quantiles, t'.x));
    StoreLevelsStores(s, row, ThresholdFields(s.header.value), key, Levels(t'.thresholds, t'.cdf));
  }

  /** A data row: it must have the header's number of fields (compared by value, as
      intended; `ScanRowAsWritten` is the identity test); its coordinates are read
      and recorded, its location looked up, and its values stored under
      (date, offset, and the location's lat, lon, elev). */
  function ScanRow(s: Scan, row: seq<string>): (r: Result<Scan>)
    requires Ready(s)
    ensures |row| != |s.header.value| ==> r == Failure(ColumnCount(|s.header.value|, |row|))
    ensures |row| == |s.header.value| && r.Failure? ==> r.error.NotANumber?
    ensures r.Success? ==> r.value.header == s.header && r.value.indices == s.indices
  {
    var width := |s.header.value|;
    if |row| != width then Failure(ColumnCount(width, |row|))
    else
      var head :- ReadHead(s, row);
      PlaceRow(s, row, head)
  }

  /** The column-count test as written: `len(row) is not len(header)` compares the two
      lengths as objects. CPython keeps one shared object per integer only from -5 to 256;
      a larger length is a new object on every call, so equal widths above 256 still
      count as different. */
  function WidthDiffersAsWritten(width: nat, found: nat): (r: bool)
    ensures width != found ==> r
    ensures width == found ==> (r <==> width > 256)
  {
    width != found || width > 256
  }

  /** A data row with the column-count test as written. */
  function ScanRowAsWritten(s: Scan, row: seq<string>): (r: Result<Scan>)
    requires Ready(s)
    ensures |s.header.value| > 256 || |row| != |s.header.value| ==> r == Failure(ColumnCount(|s.header.value|, |row|))
    ensures |s.header.value| <= 256 ==> r == ScanRow(s, row)
  {
    var width := |s.header.value|;
    if WidthDiffersAsWritten(width, |row|) then Failure(ColumnCount(width, |row|))
    else ScanRow(s, row)
  }

  /** With more than 256 columns, a row of exactly the header's width, which `ScanRow`
      reads, is rejected by the test as written for having the wrong width. */
  lemma WideRowRejectedAsWritten(s: Scan, row: seq<string>)
    requires Ready(s) && |row| == |s.header.value| > 256 && ScanRow(s, row).Success?
    ensures ScanRowAsWritten(s, row) == Failure(ColumnCount(|row|, |row|))
  {
  }

  /** The location a row's values are stored under: the location its id already has, or
      else the one the row creates, with NaN coordinates read as 0. */
  function RowSite(s: Scan, head: Head): Site
  {
    if head.id.Some? && head.id in s.info then s.info[head.id]
    else Site(head.id, OrZero(head.lat), OrZero(head.lon), OrZero(head.elev))
  }

  /** A row whose coordinates have been read: its date and offset are recorded, its
      location looked up, and its values stored under its key. */
  function PlaceRow(s: Scan, row: seq<string>, head: Head): (r: Result<Scan>)
    requires Ready(s) && |row| == |s.header.value|
    ensures r.Success? ==> r.value.header == s.header && r.value.indices == s.indices
    ensures r.Failure? ==> r.error.NotANumber?
  {
    var located := Locate(s.(dates := s.dates + {head.date}, offsets := s.offsets + {head.offset}),
      head.id, head.lat, head.lon, head.elev);
    var tables :- StoreValues(s, row, KeyAt(head.date, head.offset, located.info[head.id]), s.tables);
    Success(located.(tables := tables))
  }

  /** A row leaves the variable name and units alone, records its date and offset, and
      stores its values under the key of `RowSite`: the location its id already had, if any. */
  lemma PlaceRowStores(s: Scan, row: seq<string>, head: Head)
    requires Ready(s) && |row| == |s.header.value|
    ensures var r := PlaceRow(s, row, head);
      && (r.Success? ==> r.value.variable == s.variable && r.value.units == s.units && r.value.ignored == s.ignored)
      && (r.Success? ==> r.value.dates == s.dates + {head.date} && r.value.offsets == s.offsets + {head.offset})
      && (StoreValues(s, row, KeyAt(head.date, head.offset, RowSite(s, head)), s.tables).Failure? <==> r.Failure?)
      && (r.Success? ==> r.value.tables == StoreValues(s, row, KeyAt(head.date, head.offset, RowSite(s, head)), s.tables).value)
  {
  }

  /** A row's obs and fcst are stored under its date, offset and the coordinates of
      `RowSite`. */
  lemma PlaceRowKeys(s: Scan, row: seq<string>, head: Head)
    requires Ready(s) && |row| == |s.header.value| && PlaceRow(s, row, head).Success?
    ensures KeyAt(head.date, head.offset, RowSite(s, head)) in PlaceRow(s, row, head).value.tables.obs
    ensures KeyAt(head.date, head.offset, RowSite(s, head)) in PlaceRow(s, row, head).value.tables.fcst
  {
    PlaceRowStores(s, row, head);
  }

  /** A row only adds locations, and keeps the location of every known id. */
  lemma PlaceRowKeepsSites(s: Scan, row: seq<string>, head: Head)
    requires Ready(s) && |row| == |s.header.value| && PlaceRow(s, row, head).Success?
    ensures s.sites <= PlaceRow(s, row, head).value.sites
    ensures forall id | id in s.info && id.Some? ::
      id in PlaceRow(s, row, head).value.info && PlaceRow(s, row, head).value.info[id] == s.info[id]
  {
    var moved := s.(dates := s.dates + {head.date}, offsets := s.offsets + {head.offset});
    var located := Locate(moved, head.id, head.lat, head.lon, head.elev);
    assert PlaceRow(s, row, head).value.sites == located.sites;
    assert PlaceRow(s, row, head).value.info == located.info;
  }

  /** One line of the file. */
  function ScanLine(s: Scan, line: string): (r: Result<Scan>)
    requires Consistent(s)
    ensures r.Success? && s.header.Some? ==> r.value.header == s.header && r.value.indices == s.indices
    ensures r.Success? && s.header.None? && !IsComment(line) ==> r.value.header == Some(Split(line))
    ensures s.header.Some? && !IsComment(line) && |Split(line)| != |s.header.value| ==>
      r == Failure(ColumnCount(|s.header.value|, |Split(line)|))
  {
    if IsComment(line) then ScanComment(s, Split(line[1..]))
    else if s.header.None? then ScanHeader(s, Split(line))
    else ScanRow(s, Split(line))
  }

  /** The row loop over the lines read so far. */
  function ScanLines(lines: seq<string>): (r: Result<Scan>)
    ensures r.Success? ==> Consistent(r.value)
  {
    if lines == [] then Success(Initial)
    else
      var s :- ScanLines(lines[..|lines| - 1]);
      var r := ScanLine(s, lines[|lines| - 1]);
      assert r.Success? ==> Consistent(r.value) by { ScanLineConsistent(s, lines[|lines| - 1]); }
      r
  }

  /** A line that raises ends the load with its error: no later line is read. */
  lemma {:induction false} ScanLinesStopsAtError(lines: seq<string>, n: nat)
    requires n <= |lines| && ScanLines(lines[..n]).Failure?
    ensures ScanLines(lines) == Failure(ScanLines(lines[..n]).error)
  {
    if n < |lines| {
      var init := lines[..|lines| - 1];
      assert init[..n] == lines[..n];
      ScanLinesStopsAtError(init, n);
    } else {
      assert lines[..n] == lines;
    }
  }

  /** A level column that raises ends the row with its error. */
  lemma {:induction false} StoreLevelsStopsAtError(s: Scan, row: seq<string>, fields: seq<string>, key: Key, acc: Levels, n: nat)
    requires Ready(s) && |row| == |s.header.value| && Indexed(s, fields)
    requires n <= |fields| && StoreLevels(s, row, fields[..n], key, acc).Failure?
    ensures StoreLevels(s, row, fields, key, acc) == Failure(StoreLevels(s, row, fields[..n], key, acc).error)
  {
    if n < |fields| {
      var init := fields[..|fields| - 1];
      assert init[..n] == fields[..n];
      StoreLevelsStopsAtError(s, row, init, key, acc, n);
    } else {
      assert fields[..n] == fields;
    }
  }

  /** Every line keeps the scanner consistent. */
  lemma ScanLineConsistent(s: Scan, line: string)
    requires Consistent(s)
    ensures ScanLine(s, line).Success? ==> Consistent(ScanLine(s, line).value)
  {
    if IsComment(line) {
      var r := ScanComment(s, Split(line[1..]));
      assert r.Success? ==> Consistent(r.value);
    } else if s.header.None? {
      var r := ScanHeader(s, Split(line));
      assert r.Success? ==> Consistent(r.value);
    } else {
      var row := Split(line);
      if ScanRow(s, row).Success? {
        ScanRowConsistent(s, row);
      }
    }
  }

  lemma ScanRowConsistent(s: Scan, row: seq<string>)
    requires Consistent(s) && Ready(s) && ScanRow(s, row).Success?
    ensures Consistent(ScanRow(s, row).value)
  {
    var head := ReadHead(s, row).value;
    var moved := s.(dates := s.dates + {head.date}, offsets := s.offsets + {head.offset});
    var located := Locate(moved, head.id, head.lat, head.lon, head.elev);
    assert Consistent(located) by { LocateConsistent(moved, head.id, head.lat, head.lon, head.elev); }
  }

  lemma LocateConsistent(s: Scan, id: Val, lat: Val, lon: Val, elev: Val)
    requires Consistent(s) && s.header.Some?
    ensures Consistent(Locate(s, id, lat, lon, elev))
  {
    var r := Locate(s, id, lat, lon, elev);
    if !(id.Some? && id in s.info) {
      var site := Site(id, OrZero(lat), OrZero(lon), OrZero(elev));
      forall i | 0 <= i < |r.sites| && r.sites[i].id.Some?
        ensures r.sites[i].id in r.info && r.info[r.sites[i].id] == r.sites[i]
      {
        if i < |s.sites| {
          assert r.sites[i] == s.sites[i];
          assert s.sites[i].id in s.info;
        }
      }
    }
  }
}

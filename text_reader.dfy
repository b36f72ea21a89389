/** The row loop of `Text.__init__` as the source writes it: an object whose fields (the
    metadata, the header and its index map, the seen dates and offsets, the location list
    and table, the conflict flag, the sparse dictionaries) are updated line by line. Each
    method is proved to compute what `TextScan` says. */
module TextReading {
  import opened Common
  import opened Strings
  import opened TextFields
  import opened TextScan

  class TextReader {
    var variable: string
    var units: string
    var ignored: nat
    var header: Option<seq<string>>
    var indices: map<string, nat>
    var dates: set<Val>
    var offsets: set<Val>
    var locations: seq<Site>
    var locationInfo: map<Val, Site>
    var shownConflictingWarning: bool
    var conflictWarnings: nat
    var tables: Tables     // the dictionaries obs, fcst, pit, x, cdf and the level sets

    /** The reader's fields, as the scanner state they stand for. */
    function State(): Scan
      reads this
    {
      Scan(variable, units, ignored, header, indices, dates, offsets, locations, locationInfo,
        shownConflictingWarning, conflictWarnings, tables)
    }

    /** The defaults before the first line. */
    constructor ()
      ensures State() == Initial
    {
      variable := "Unknown";
      units := "Unknown units";
      ignored := 0;
      header := None;
      indices := map[];
      dates := {};
      offsets := {};
      locations := [];
      locationInfo := map[];
      shownConflictingWarning := false;
      conflictWarnings := 0;
      tables := NoTables;
    }

    /** One line of the file: a comment, the header, or a data row. */
    method ReadLine(line: string) returns (err: Option<Error>)
      requires Consistent(State())
      modifies this
      ensures ScanLine(old(State()), line) == if err.None? then Success(State()) else Failure(err.value)
    {
      if |line| > 0 && line[0] == '#' {
        err := ReadComment(Split(line[1..]));
      } else if header.None? {
        err := ReadHeader(Split(line));
      } else {
        err := ReadRow(Split(line));
      }
    }

    /** A comment line, split into words after the `#`. */
    method ReadComment(words: seq<string>) returns (err: Option<Error>)
      modifies this
      ensures ScanComment(old(State()), words) == if err.None? then Success(State()) else Failure(err.value)
    {
      if words == [] {
        return Some(MalformedComment);
      }
      if words[0] == "variable:" {
        variable := JoinSpaces(words[1..]);
      } else if words[0] == "units:" {
        if |words| < 2 {
          return Some(MalformedComment);
        }
        units := words[1];
      } else {
        ignored := ignored + 1;
      }
      return None;
    }

    /** The header line: each column's position goes into the index map, then `obs` and
        `fcst` are required. */
    method ReadHeader(row: seq<string>) returns (err: Option<Error>)
      requires Tokens(row)
      modifies this
      ensures ScanHeader(old(State()), row) == if err.None? then Success(State()) else Failure(err.value)
    {
      var columns := map[];
      for i := 0 to |row|
        invariant columns == HeaderMap(row[..i])
      {
        assert row[..i + 1][..i] == row[..i];
        columns := columns[row[i] := i];
      }
      assert row[..|row|] == row;
      assert "obs" in columns <==> "obs" in row by { HeaderMapLast(row); }
      assert "fcst" in columns <==> "fcst" in row by { HeaderMapLast(row); }
      header := Some(row);
      indices := columns;
      if "obs" !in indices {
        return Some(MissingColumn("obs"));
      }
      if "fcst" !in indices {
        return Some(MissingColumn("fcst"));
      }
      return None;
    }

    /** A data row. */
    method ReadRow(row: seq<string>) returns (err: Option<Error>)
      requires Ready(State())
      modifies this
      ensures ScanRow(old(State()), row) == if err.None? then Success(State()) else Failure(err.value)
    {
      if |row| != |header.value| {
        return Some(ColumnCount(|header.value|, |row|));
      }
      var head;
      head, err := ReadCoordinates(row);
      if err.Some? {
        return;
      }
      err := PlaceRow(row, head);
    }

    /** A row whose coordinates have been read. */
    method PlaceRow(row: seq<string>, head: Head) returns (err: Option<Error>)
      requires Ready(State()) && |row| == |header.value|
      modifies this
      ensures TextScan.PlaceRow(old(State()), row, head) == if err.None? then Success(State()) else Failure(err.value)
    {
      var s := State();
      RecordCoordinates(head);
      ghost var located := Locate(s.(dates := s.dates + {head.date}, offsets := s.offsets + {head.offset}),
        head.id, head.lat, head.lon, head.elev);
      var site := locationInfo[head.id];
      var stored;
      stored, err := StoreRow(s, row, KeyAt(head.date, head.offset, site), s.tables);
      if err.Some? {
        return;
      }
      tables := stored;
      assert State() == located.(tables := stored);
    }

    /** The row's date and offset join the seen ones, and its location is looked up. */
    method RecordCoordinates(head: Head)
      modifies this
      ensures State() == Locate(old(State()).(dates := old(dates) + {head.date}, offsets := old(offsets) + {head.offset}),
        head.id, head.lat, head.lon, head.elev)
    {
      dates := dates + {head.date};
      offsets := offsets + {head.offset};
      LocateRow(head.id, head.lat, head.lon, head.elev);
    }

    /** The date, offset, id, lat, lon and elev cells, each read only when the header has
        its column. */
    method ReadCoordinates(row: seq<string>) returns (head: Head, err: Option<Error>)
      requires Ready(State()) && |row| == |header.value|
      ensures ReadHead(State(), row) == if err.None? then Success(head) else Failure(err.value)
    {
      var s := State();
      head := Head(Some(0.0), Some(0.0), None, None, None, None);
      err := None;
      if "date" in indices {
        var c := Clean(row[indices["date"]]);
        if c.Failure? { return head, Some(c.error); }
        head := head.(date := c.value);
      }
      if "offset" in indices {
        var c := Clean(row[indices["offset"]]);
        if c.Failure? { return head, Some(c.error); }
        head := head.(offset := c.value);
      }
      if "id" in indices {
        var c := Clean(row[indices["id"]]);
        if c.Failure? { return head, Some(c.error); }
        head := head.(id := c.value);
      }
      if "lat" in indices {
        var c := Clean(row[indices["lat"]]);
        if c.Failure? { return head, Some(c.error); }
        head := head.(lat := c.value);
      }
      if "lon" in indices {
        var c := Clean(row[indices["lon"]]);
        if c.Failure? { return head, Some(c.error); }
        head := head.(lon := c.value);
      }
      if "elev" in indices {
        var c := Clean(row[indices["elev"]]);
        if c.Failure? { return head, Some(c.error); }
        head := head.(elev := c.value);
      }
    }

    /** The location lookup of a row: a known id keeps its first location and may raise
        the one conflict warning; otherwise a location is created from the row. */
    method LocateRow(id: Val, lat: Val, lon: Val, elev: Val)
      modifies this
      ensures State() == Locate(old(State()), id, lat, lon, elev)
    {
      if id.Some? && id in locationInfo {
        var known := locationInfo[id];
        if !shownConflictingWarning {
          if Conflicts(known, lat, lon, elev) {
            conflictWarnings := conflictWarnings + 1;
            shownConflictingWarning := true;
          }
        }
      } else {
        var currLat, currLon, currElev := lat, lon, elev;
        if currLat.None? { currLat := Some(0.0); }
        if currLon.None? { currLon := Some(0.0); }
        if currElev.None? { currElev := Some(0.0); }
        var location := Site(id, currLat.value, currLon.value, currElev.value);
        locations := locations + [location];
        locationInfo := locationInfo[id := location];
      }
    }

    /** The value cells of a row stored into the sparse tables `t`: obs, fcst, pit when
        present, then the quantile and threshold columns. */
    static method StoreRow(s: Scan, row: seq<string>, key: Key, t: Tables) returns (stored: Tables, err: Option<Error>)
      requires Ready(s) && |row| == |s.header.value|
      ensures StoreValues(s, row, key, t) == if err.None? then Success(stored) else Failure(err.value)
    {
      stored := t;
      var c := Clean(row[s.indices["obs"]]);
      if c.Failure? { return stored, Some(c.error); }
      stored := stored.(obs := stored.obs[key := c.value]);
      c := Clean(row[s.indices["fcst"]]);
      if c.Failure? { return stored, Some(c.error); }
      stored := stored.(fcst := stored.fcst[key := c.value]);
      if "pit" in s.indices {
        c := Clean(row[s.indices["pit"]]);
        if c.Failure? { return stored, Some(c.error); }
        stored := stored.(pit := stored.pit[key := c.value]);
      }
      LevelFieldsIndexed(s);
      var levels, table;
      levels, table, err := StoreLevelsLoop(s, row, QuantileFields(s.header.value), key, stored.quantiles, stored.x);
      if err.Some? { return; }
      stored := stored.(quantiles := levels, x := table);
      levels, table, err := StoreLevelsLoop(s, row, ThresholdFields(s.header.value), key, stored.thresholds, stored.cdf);
      if err.Some? { return; }
      stored := stored.(thresholds := levels, cdf := table);
    }

    /** The loop over quantile (or threshold) columns: each column's level is parsed and
        added, and its cell stored under (key, level). */
    static method StoreLevelsLoop(s: Scan, row: seq<string>, fields: seq<string>, key: Key,
      levels0: set<real>, table0: map<LevelKey, Val>)
      returns (levels: set<real>, table: map<LevelKey, Val>, err: Option<Error>)
      requires Ready(s) && |row| == |s.header.value| && Indexed(s, fields)
      ensures StoreLevels(s, row, fields, key, Levels(levels0, table0)) ==
        if err.None? then Success(Levels(levels, table)) else Failure(err.value)
    {
      levels, table, err := levels0, table0, None;
      for i := 0 to |fields|
        invariant StoreLevels(s, row, fields[..i], key, Levels(levels0, table0)) == Success(Levels(levels, table))
      {
        var field := fields[i];
        assert fields[..i + 1][..i] == fields[..i];
        var level := Level(field);
        if level.Failure? {
          StoreLevelsStopsAtError(s, row, fields, key, Levels(levels0, table0), i + 1);
          return levels, table, Some(level.error);
        }
        levels := levels + {level.value};
        var c := Clean(row[s.indices[field]]);
        if c.Failure? {
          StoreLevelsStopsAtError(s, row, fields, key, Levels(levels0, table0), i + 1);
          return levels, table, Some(c.error);
        }
        table := table[LevelKey(key, level.value) := c.value];
      }
      assert fields[..|fields|] == fields;
    }
  }

  /** Reading every line of a file in turn: the reader ends in the state `ScanLines`
      gives, or stops at the first line that raises, with that line's error. */
  method ReadLines(lines: seq<string>) returns (reader: TextReader, err: Option<Error>)
    ensures fresh(reader)
    ensures ScanLines(lines) == if err.None? then Success(reader.State()) else Failure(err.value)
  {
    reader := new TextReader();
    err := None;
    for i := 0 to |lines|
      invariant fresh(reader) && err.None?
      invariant ScanLines(lines[..i]) == Success(reader.State())
    {
      assert lines[..i + 1][..i] == lines[..i];
      err := reader.ReadLine(lines[i]);
      if err.Some? {
        ScanLinesStopsAtError(lines, i + 1);
        return;
      }
    }
    assert lines[..|lines|] == lines;
  }
}

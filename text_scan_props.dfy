/** What the row loop of `Text.__init__` guarantees over a whole file: where the header
    comes from and what it must hold, that every data row matches it, that a location
    keeps the coordinates of its id's first row, and that without an id column every
    row gets a location of its own. */
module TextScanFacts {
  import opened Common
  import opened Strings
  import opened TextFields
  import opened TextScan

  /** Line `h` is the first line that is not a comment. */
  predicate FirstData(lines: seq<string>, h: int)
  {
    0 <= h < |lines| && !IsComment(lines[h]) && forall j | 0 <= j < h :: IsComment(lines[j])
  }

  /** The number of lines that are not comments. */
  function DataLines(lines: seq<string>): (n: nat)
    ensures n <= |lines|
  {
    if lines == [] then 0
    else DataLines(lines[..|lines| - 1]) + (if IsComment(lines[|lines| - 1]) then 0 else 1)
  }

  /** Scanning one more line is scanning the line after the ones before it. */
  lemma ScanLinesSnoc(lines: seq<string>, line: string)
    ensures ScanLines(lines + [line]) ==
      if ScanLines(lines).Failure? then Failure(ScanLines(lines).error)
      else ScanLine(ScanLines(lines).value, line)
  {
    assert (lines + [line])[..|lines|] == lines;
  }

  /** The same step at line `n`: the first n + 1 lines are line `n` after the first n. */
  lemma ScanLinesPrefix(lines: seq<string>, n: nat)
    requires n < |lines|
    ensures ScanLines(lines[..n + 1]) ==
      if ScanLines(lines[..n]).Failure? then Failure(ScanLines(lines[..n]).error)
      else ScanLine(ScanLines(lines[..n]).value, lines[n])
  {
    assert lines[..n + 1] == lines[..n] + [lines[n]];
    ScanLinesSnoc(lines[..n], lines[n]);
  }

  /** The same step, read off a non-empty file: its last line after the ones before it. */
  lemma ScanLinesLast(lines: seq<string>)
    requires lines != []
    ensures var init := lines[..|lines| - 1];
      ScanLines(lines) ==
        if ScanLines(init).Failure? then Failure(ScanLines(init).error)
        else ScanLine(ScanLines(init).value, lines[|lines| - 1])
  {
  }

  /** The header after one more line: it is set by the first line that is not a comment. */
  function NextHeader(header: Option<seq<string>>, line: string): Option<seq<string>>
  {
    if header.Some? then header else if IsComment(line) then None else Some(Split(line))
  }

  /** The header a file's lines give, line by line. */
  function HeaderOf(lines: seq<string>): Option<seq<string>>
  {
    if lines == [] then None else NextHeader(HeaderOf(lines[..|lines| - 1]), lines[|lines| - 1])
  }

  /** One line sets the header as `NextHeader` says, and a data line after the header
      has the header's number of fields. */
  lemma HeaderStep(s: Scan, line: string)
    requires Consistent(s) && ScanLine(s, line).Success?
    ensures ScanLine(s, line).value.header == NextHeader(s.header, line)
    ensures s.header.Some? ==> ScanLine(s, line).value.indices == s.indices
    ensures s.header.Some? && !IsComment(line) ==> |Split(line)| == |s.header.value|
  {
  }

  /** The loaded header is the first line that is not a comment. */
  lemma {:induction false} HeaderIsFirstDataLine(lines: seq<string>)
    requires ScanLines(lines).Success?
    ensures ScanLines(lines).value.header == HeaderOf(lines)
  {
    if lines != [] {
      var init, last := lines[..|lines| - 1], lines[|lines| - 1];
      ScanLinesLast(lines);
      HeaderIsFirstDataLine(init);
      HeaderStep(ScanLines(init).value, last);
    }
  }

  /** `HeaderOf` is the first line that is not a comment, and there is none exactly
      when every line is a comment. */
  lemma {:induction false} HeaderOfFirst(lines: seq<string>)
    ensures HeaderOf(lines).None? <==> forall j | 0 <= j < |lines| :: IsComment(lines[j])
    ensures HeaderOf(lines).None? <==> DataLines(lines) == 0
    ensures forall h | FirstData(lines, h) :: HeaderOf(lines) == Some(Split(lines[h]))
  {
    if lines != [] {
      var init, last := lines[..|lines| - 1], lines[|lines| - 1];
      HeaderOfFirst(init);
      assert forall j | 0 <= j < |init| :: init[j] == lines[j];
      if HeaderOf(init).Some? {
        forall h | FirstData(lines, h) ensures h < |init| && FirstData(init, h) {
          var j :| 0 <= j < |init| && !IsComment(init[j]);
        }
      } else if IsComment(last) {
        assert forall h | FirstData(lines, h) :: h < |init| && FirstData(init, h);
      } else {
        assert FirstData(lines, |init|);
      }
    }
  }

  /** Every line of `lines` that is not a comment has a header's number of fields. */
  ghost predicate RowsFit(lines: seq<string>, header: Option<seq<string>>)
  {
    forall i | 0 <= i < |lines| && !IsComment(lines[i]) :: header.Some? && |Split(lines[i])| == |header.value|
  }

  /** One more line keeps the rows fitting: it is a comment, the header itself, or a row
      of the header's width. */
  lemma RowsFitSnoc(lines: seq<string>, line: string, header: Option<seq<string>>)
    requires RowsFit(lines, header)
    requires header.Some? && !IsComment(line) ==> |Split(line)| == |header.value|
    ensures RowsFit(lines + [line], NextHeader(header, line))
  {
    assert forall i | 0 <= i < |lines| :: (lines + [line])[i] == lines[i];
  }

  /** Every data line of a loaded file has as many fields as its header. */
  lemma {:induction false} RowsMatchHeader(lines: seq<string>)
    requires ScanLines(lines).Success?
    ensures RowsFit(lines, ScanLines(lines).value.header)
  {
    if lines != [] {
      var init, last := lines[..|lines| - 1], lines[|lines| - 1];
      ScanLinesLast(lines);
      SplitLast(lines);
      RowsMatchHeader(init);
      var s := ScanLines(init).value;
      HeaderStep(s, last);
      RowsFitSnoc(init, last, s.header);
    }
  }

  /** A header without an `obs` column, or without a `fcst` column, fails the load. */
  lemma HeaderNeedsObsAndFcst(lines: seq<string>, h: int)
    requires FirstData(lines, h)
    requires "obs" !in Split(lines[h]) || "fcst" !in Split(lines[h])
    ensures ScanLines(lines).Failure?
  {
    var before := lines[..h];
    assert lines[..h + 1] == before + [lines[h]];
    ScanLinesSnoc(before, lines[h]);
    if ScanLines(before).Success? {
      HeaderIsFirstDataLine(before);
      HeaderOfFirst(before);
      assert ScanLines(before).value.header.None?;
    }
    ScanLinesStopsAtError(lines, h + 1);
  }

  /** One line only adds locations, and keeps the location of every known id. */
  lemma KeepsSites(s: Scan, line: string)
    requires Consistent(s) && ScanLine(s, line).Success?
    ensures s.sites <= ScanLine(s, line).value.sites
    ensures forall id | id in s.info && id.Some? ::
      id in ScanLine(s, line).value.info && ScanLine(s, line).value.info[id] == s.info[id]
  {
    if IsComment(line) {
      assert ScanLine(s, line) == ScanComment(s, Split(line[1..]));
    } else if s.header.None? {
      assert ScanLine(s, line) == ScanHeader(s, Split(line));
    } else {
      var row := Split(line);
      var head := ReadHead(s, row).value;
      assert ScanLine(s, line) == PlaceRow(s, row, head);
      PlaceRowKeepsSites(s, row, head);
    }
  }

  /** First row wins: once an id has a location, every later state of the load keeps it,
      and the locations created so far stay, in order, at the front of the list. */
  lemma {:induction false} FirstRowWins(lines: seq<string>, n: nat)
    requires n <= |lines| && ScanLines(lines).Success?
    ensures ScanLines(lines[..n]).Success?
    ensures ScanLines(lines[..n]).value.sites <= ScanLines(lines).value.sites
    ensures forall id | id in ScanLines(lines[..n]).value.info && id.Some? ::
      id in ScanLines(lines).value.info && ScanLines(lines).value.info[id] == ScanLines(lines[..n]).value.info[id]
  {
    if ScanLines(lines[..n]).Failure? {
      ScanLinesStopsAtError(lines, n);
    }
    if n < |lines| {
      var init, last := lines[..|lines| - 1], lines[|lines| - 1];
      ScanLinesLast(lines);
      assert init[..n] == lines[..n];
      FirstRowWins(init, n);
      KeepsSites(ScanLines(init).value, last);
    } else {
      assert lines[..n] == lines;
    }
  }

  /** Without an `id` column a data row after the header adds one location. */
  lemma NoIdStep(s: Scan, line: string)
    requires Consistent(s) && s.header.Some? && ScanLine(s, line).Success?
    requires "id" !in s.indices
    ensures |ScanLine(s, line).value.sites| == |s.sites| + (if IsComment(line) then 0 else 1)
  {
    if !IsComment(line) {
      var head := ReadHead(s, Split(line)).value;
      assert head.id == None;
    }
  }

  /** A loaded file has a header exactly when some line is not a comment. */
  lemma HeaderMeansData(lines: seq<string>)
    requires ScanLines(lines).Success?
    ensures ScanLines(lines).value.header.None? <==> DataLines(lines) == 0
  {
    HeaderIsFirstDataLine(lines);
    HeaderOfFirst(lines);
  }

  /** Without an `id` column every id is NaN, so every data row after the header creates
      a location of its own, even at coordinates seen before. */
  lemma {:induction false} NoIdColumn(lines: seq<string>)
    requires ScanLines(lines).Success? && "id" !in ScanLines(lines).value.indices
    ensures |ScanLines(lines).value.sites| == if DataLines(lines) == 0 then 0 else DataLines(lines) - 1
  {
    if lines != [] {
      var init, last := lines[..|lines| - 1], lines[|lines| - 1];
      ScanLinesLast(lines);
      var s := ScanLines(init).value;
      HeaderStep(s, last);
      HeaderMeansData(init);
      if s.header.Some? {
        NoIdColumn(init);
        NoIdStep(s, last);
      }
    }
  }

  /** One line never removes an obs or fcst entry. */
  lemma TablesStep(s: Scan, line: string)
    requires Consistent(s) && ScanLine(s, line).Success?
    ensures s.tables.obs.Keys <= ScanLine(s, line).value.tables.obs.Keys
    ensures s.tables.fcst.Keys <= ScanLine(s, line).value.tables.fcst.Keys
  {
    if !IsComment(line) && s.header.Some? {
      var row := Split(line);
      var head := ReadHead(s, row).value;
      assert ScanLine(s, line) == PlaceRow(s, row, head);
      PlaceRowStores(s, row, head);
    }
  }

  /** An obs or fcst entry, once stored, stays stored for the rest of the load. */
  lemma {:induction false} KeysStay(lines: seq<string>, n: nat)
    requires n <= |lines| && ScanLines(lines).Success?
    ensures ScanLines(lines[..n]).Success?
    ensures ScanLines(lines[..n]).value.tables.obs.Keys <= ScanLines(lines).value.tables.obs.Keys
    ensures ScanLines(lines[..n]).value.tables.fcst.Keys <= ScanLines(lines).value.tables.fcst.Keys
  {
    if ScanLines(lines[..n]).Failure? {
      ScanLinesStopsAtError(lines, n);
    }
    if n < |lines| {
      var init, last := lines[..|lines| - 1], lines[|lines| - 1];
      ScanLinesLast(lines);
      assert init[..n] == lines[..n];
      KeysStay(init, n);
      TablesStep(ScanLines(init).value, last);
    } else {
      assert lines[..n] == lines;
    }
  }

  /** Every data row's obs and fcst are stored under (date, offset) and the coordinates of
      its location. When an earlier row already introduced the row's id, that location is
      the earlier row's, and it is the location the id has once the file is loaded: later
      rows of an id use the coordinates of its first row, whatever their own cells say. */
  lemma RowStoredAtFirstSite(lines: seq<string>, n: nat)
    requires ScanLines(lines).Success? && n < |lines| && !IsComment(lines[n])
    requires ScanLines(lines[..n]).Success? && ScanLines(lines[..n]).value.header.Some?
    ensures var s := ScanLines(lines[..n]).value;
      && |Split(lines[n])| == |s.header.value| && ReadHead(s, Split(lines[n])).Success?
      && var head := ReadHead(s, Split(lines[n])).value;
         var loaded := ScanLines(lines).value;
         && KeyAt(head.date, head.offset, RowSite(s, head)) in loaded.tables.obs
         && KeyAt(head.date, head.offset, RowSite(s, head)) in loaded.tables.fcst
         && (head.id.Some? && head.id in s.info ==> head.id in loaded.info && RowSite(s, head) == loaded.info[head.id])
  {
    var s := ScanLines(lines[..n]).value;
    var line := lines[n];
    ScanLinesPrefix(lines, n);
    KeysStay(lines, n + 1);
    FirstRowWins(lines, n);
    HeaderStep(s, line);
    var row := Split(line);
    var head := ReadHead(s, row).value;
    assert ScanLine(s, line) == PlaceRow(s, row, head);
    PlaceRowKeys(s, row, head);
  }

  /** A `#variable:` comment, which names the variable. */
  predicate VariableComment(line: string)
  {
    IsComment(line) && var words := Split(line[1..]); words != [] && words[0] == "variable:"
  }

  /** A `#units:` comment with a word after the tag, which names the units. */
  predicate UnitsComment(line: string)
  {
    IsComment(line) && var words := Split(line[1..]); |words| >= 2 && words[0] == "units:"
  }

  /** Only those comments change the variable name or the units. */
  lemma MetadataStep(s: Scan, line: string)
    requires Consistent(s) && ScanLine(s, line).Success?
    ensures ScanLine(s, line).value.variable ==
      if VariableComment(line) then JoinSpaces(Split(line[1..])[1..]) else s.variable
    ensures ScanLine(s, line).value.units == if UnitsComment(line) then Split(line[1..])[1] else s.units
  {
    if !IsComment(line) && s.header.Some? {
      var row := Split(line);
      var head := ReadHead(s, row).value;
      assert ScanLine(s, line) == PlaceRow(s, row, head);
      PlaceRowStores(s, row, head);
    }
  }

  /** The variable name a file's comments give: the rest of its last `#variable:`
      comment, or "Unknown" when it has none. */
  function VariableOf(lines: seq<string>): string
  {
    if lines == [] then "Unknown"
    else if VariableComment(lines[|lines| - 1]) then JoinSpaces(Split(lines[|lines| - 1][1..])[1..])
    else VariableOf(lines[..|lines| - 1])
  }

  /** The units a file's comments give: the word after its last `#units:` comment, or
      "Unknown units" when it has none. */
  function UnitsOf(lines: seq<string>): string
  {
    if lines == [] then "Unknown units"
    else if UnitsComment(lines[|lines| - 1]) then Split(lines[|lines| - 1][1..])[1]
    else UnitsOf(lines[..|lines| - 1])
  }

  /** A loaded file's variable name and units are the ones its comments give. */
  lemma {:induction false} MetadataRead(lines: seq<string>)
    requires ScanLines(lines).Success?
    ensures ScanLines(lines).value.variable == VariableOf(lines)
    ensures ScanLines(lines).value.units == UnitsOf(lines)
  {
    if lines != [] {
      ScanLinesLast(lines);
      MetadataRead(lines[..|lines| - 1]);
      MetadataStep(ScanLines(lines[..|lines| - 1]).value, lines[|lines| - 1]);
    }
  }

  /** `VariableOf` picks the last `#variable:` comment, and is "Unknown" without one. */
  lemma {:induction false} VariableOfLast(lines: seq<string>)
    ensures (forall j | 0 <= j < |lines| :: !VariableComment(lines[j])) ==> VariableOf(lines) == "Unknown"
    ensures forall i | 0 <= i < |lines| && VariableComment(lines[i]) && (forall j | i < j < |lines| :: !VariableComment(lines[j])) ::
      VariableOf(lines) == JoinSpaces(Split(lines[i][1..])[1..])
  {
    if lines != [] {
      var init := lines[..|lines| - 1];
      assert forall j | 0 <= j < |init| :: init[j] == lines[j];
      VariableOfLast(init);
      forall i | 0 <= i < |lines| && VariableComment(lines[i]) && (forall j | i < j < |lines| :: !VariableComment(lines[j]))
        ensures VariableOf(lines) == JoinSpaces(Split(lines[i][1..])[1..])
      {
        if i < |init| {
          assert !VariableComment(lines[|init|]);
          assert forall j | i < j < |init| :: !VariableComment(init[j]);
        }
      }
    }
  }

  /** `UnitsOf` picks the last `#units:` comment, and is "Unknown units" without one. */
  lemma {:induction false} UnitsOfLast(lines: seq<string>)
    ensures (forall j | 0 <= j < |lines| :: !UnitsComment(lines[j])) ==> UnitsOf(lines) == "Unknown units"
    ensures forall i | 0 <= i < |lines| && UnitsComment(lines[i]) && (forall j | i < j < |lines| :: !UnitsComment(lines[j])) ::
      UnitsOf(lines) == Split(lines[i][1..])[1]
  {
    if lines != [] {
      var init := lines[..|lines| - 1];
      assert forall j | 0 <= j < |init| :: init[j] == lines[j];
      UnitsOfLast(init);
    }
  }

  /** The variable name is the rest of the last `#variable:` comment, or "Unknown" when the
      file has none. */
  lemma LastVariableWins(lines: seq<string>)
    requires ScanLines(lines).Success?
    ensures (forall j | 0 <= j < |lines| :: !VariableComment(lines[j])) ==> ScanLines(lines).value.variable == "Unknown"
    ensures forall i | 0 <= i < |lines| && VariableComment(lines[i]) && (forall j | i < j < |lines| :: !VariableComment(lines[j])) ::
      ScanLines(lines).value.variable == JoinSpaces(Split(lines[i][1..])[1..])
  {
    MetadataRead(lines);
    VariableOfLast(lines);
  }

  /** The units are the word after the last `#units:` comment, or "Unknown units" when the
      file has none. */
  lemma LastUnitsWin(lines: seq<string>)
    requires ScanLines(lines).Success?
    ensures (forall j | 0 <= j < |lines| :: !UnitsComment(lines[j])) ==> ScanLines(lines).value.units == "Unknown units"
    ensures forall i | 0 <= i < |lines| && UnitsComment(lines[i]) && (forall j | i < j < |lines| :: !UnitsComment(lines[j])) ::
      ScanLines(lines).value.units == Split(lines[i][1..])[1]
  {
    MetadataRead(lines);
    UnitsOfLast(lines);
  }

  /** A key whose date and offset have been seen and whose coordinates are those of a
      created location: the dense pass has a cell for it. */
  ghost predicate Placed(s: Scan, k: Key)
  {
    k.date in s.dates && k.offset in s.offsets && exists i | 0 <= i < |s.sites| :: KeyAt(k.date, k.offset, s.sites[i]) == k
  }

  /** Every entry of every sparse table is placed, at a recorded level for the level tables. */
  ghost predicate Covered(s: Scan)
  {
    && (forall k | k in s.tables.obs :: Placed(s, k))
    && (forall k | k in s.tables.fcst :: Placed(s, k))
    && (forall k | k in s.tables.pit :: Placed(s, k))
    && (forall k | k in s.tables.x :: Placed(s, k.key) && k.level in s.tables.quantiles)
    && (forall k | k in s.tables.cdf :: Placed(s, k.key) && k.level in s.tables.thresholds)
  }

  /** Placement survives more dates, offsets and locations. */
  lemma PlacedGrows(s: Scan, t: Scan, k: Key)
    requires Placed(s, k) && s.dates <= t.dates && s.offsets <= t.offsets && s.sites <= t.sites
    ensures Placed(t, k)
  {
    var i :| 0 <= i < |s.sites| && KeyAt(k.date, k.offset, s.sites[i]) == k;
    assert t.sites[i] == s.sites[i];
  }

  /** What a data row does to the state, as far as placement goes: dates, offsets and
      locations only grow, the row's key is placed, and the tables gain entries for that
      key only. */
  ghost predicate RowExtends(s: Scan, r: Scan, key: Key)
  {
    && s.dates <= r.dates && s.offsets <= r.offsets && s.sites <= r.sites && Placed(r, key)
    && r.tables.obs.Keys <= s.tables.obs.Keys + {key}
    && r.tables.fcst.Keys <= s.tables.fcst.Keys + {key}
    && r.tables.pit.Keys <= s.tables.pit.Keys + {key}
    && LevelsAdded(s.tables.quantiles, s.tables.x, r.tables.quantiles, r.tables.x, key)
    && LevelsAdded(s.tables.thresholds, s.tables.cdf, r.tables.thresholds, r.tables.cdf, key)
  }

  /** The located row's key is placed among the locations. */
  lemma LocatePlaces(moved: Scan, head: Head)
    requires Consistent(moved) && moved.header.Some?
    requires head.date in moved.dates && head.offset in moved.offsets
    ensures var located := Locate(moved, head.id, head.lat, head.lon, head.elev);
      moved.sites <= located.sites && located.dates == moved.dates && located.offsets == moved.offsets &&
      located.tables == moved.tables &&
      Placed(located, KeyAt(head.date, head.offset, located.info[head.id]))
  {
    var located := Locate(moved, head.id, head.lat, head.lon, head.elev);
    LocateConsistent(moved, head.id, head.lat, head.lon, head.elev);
    var key := KeyAt(head.date, head.offset, located.info[head.id]);
    var i :| 0 <= i < |located.sites| && located.sites[i] == located.info[head.id];
    assert KeyAt(key.date, key.offset, located.sites[i]) == key;
  }

  /** A data row extends the state as `RowExtends` says. */
  lemma PlaceRowExtends(s: Scan, row: seq<string>, head: Head)
    requires Consistent(s) && Ready(s) && |row| == |s.header.value|
    requires PlaceRow(s, row, head).Success?
    ensures exists key :: RowExtends(s, PlaceRow(s, row, head).value, key)
  {
    var moved := s.(dates := s.dates + {head.date}, offsets := s.offsets + {head.offset});
    var located := Locate(moved, head.id, head.lat, head.lon, head.elev);
    LocatePlaces(moved, head);
    var key := KeyAt(head.date, head.offset, located.info[head.id]);
    assert RowExtends(s, PlaceRow(s, row, head).value, key);
  }

  /** The tables after a row cover everything when the row extends a covered state. */
  lemma CoveredAfterRow(s: Scan, r: Scan, key: Key)
    requires Covered(s) && RowExtends(s, r, key)
    ensures Covered(r)
  {
    forall k | k in s.tables.obs || k in s.tables.fcst || k in s.tables.pit ensures Placed(r, k) {
      PlacedGrows(s, r, k);
    }
    forall k | k in s.tables.x || k in s.tables.cdf ensures Placed(r, k.key) {
      PlacedGrows(s, r, k.key);
    }
  }

  /** Every line keeps every entry placed. */
  lemma CoveredStep(s: Scan, line: string)
    requires Consistent(s) && Covered(s) && ScanLine(s, line).Success?
    ensures Covered(ScanLine(s, line).value)
  {
    if !IsComment(line) && s.header.Some? {
      var row := Split(line);
      var head := ReadHead(s, row).value;
      PlaceRowExtends(s, row, head);
      var key :| RowExtends(s, PlaceRow(s, row, head).value, key);
      CoveredAfterRow(s, PlaceRow(s, row, head).value, key);
    }
  }

  /** Nothing read is lost by the dense pass: every entry of a loaded file's tables has a
      date, an offset and a location (and a level) that the lists will hold. */
  lemma {:induction false} LoadCovered(lines: seq<string>)
    requires ScanLines(lines).Success?
    ensures Covered(ScanLines(lines).value)
  {
    if lines != [] {
      var init, last := lines[..|lines| - 1], lines[|lines| - 1];
      ScanLinesLast(lines);
      LoadCovered(init);
      CoveredStep(ScanLines(init).value, last);
    }
  }
}

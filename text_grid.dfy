/** The dense pass at the end of `Text.__init__`: the seen dates, offsets, locations and
    levels become lists (in whatever order `list(set)` gives), and each sparse table is
    copied into a NaN-filled array indexed by those lists. */
module TextGrid {
  import opened Common
  import opened TextScan

  /** No element occurs twice. */
  predicate Distinct<T(==)>(list: seq<T>)
  {
    forall i, j | 0 <= i < j < |list| :: list[i] != list[j]
  }

  /** `list(set)` of a set: each member once. */
  ghost predicate Lists<T(!new)>(list: seq<T>, items: set<T>)
  {
    |list| == |items| && Distinct(list) && forall v :: v in list <==> v in items
  }

  /** `list(set)`: the members of a set, each once, in an order the set does not fix. */
  method ListOf<T(==, !new)>(items: set<T>) returns (list: seq<T>)
    ensures Lists(list, items)
  {
    list := [];
    var rest := items;
    while rest != {}
      invariant rest <= items
      invariant forall v :: v in list <==> v in items && v !in rest
      invariant Distinct(list)
      invariant |list| + |rest| == |items|
      decreases |rest|
    {
      var v :| v in rest;
      list := list + [v];
      rest := rest - {v};
    }
  }

  /** `list(self._locations)`: every created location once, in some order. Locations are
      distinct objects even when their fields agree, so the order is a permutation of
      creation positions. */
  method ListLocations(sites: seq<Site>) returns (locations: seq<Site>, order: seq<int>)
    ensures |order| == |sites| && Distinct(order)
    ensures forall k | 0 <= k < |order| :: 0 <= order[k] < |sites|
    ensures forall i | 0 <= i < |sites| :: i in order
    ensures |locations| == |sites| && forall k | 0 <= k < |order| :: locations[k] == sites[order[k]]
  {
    var positions: set<int> := {};
    for i := 0 to |sites|
      invariant forall k :: k in positions <==> 0 <= k < i
      invariant |positions| == i
    {
      positions := positions + {i};
    }
    order := ListOf(positions);
    assert forall k | 0 <= k < |order| :: order[k] in positions;
    locations := seq(|order|, k requires 0 <= k < |order| => sites[order[k]]);
  }

  /** The value a dense cell gets: the table's entry for its key, or NaN. */
  function Cell<K>(table: map<K, Val>, key: K): Val
  {
    if key in table then table[key] else None
  }

  /** Cell (d, o, l) comes no later than (d0, o0, l0) in the loop order. */
  predicate Before3(d: int, o: int, l: int, d0: int, o0: int, l0: int)
  {
    d < d0 || (d == d0 && (o < o0 || (o == o0 && l < l0)))
  }

  /** A 3-D array as the loop over dates, offsets and locations leaves it once it reaches
      (d0, o0, l0): earlier cells hold their table entry, later ones are still NaN. */
  ghost predicate Filled3(a: array3<Val>, dates: seq<Val>, offsets: seq<Val>, locations: seq<Site>,
    table: map<Key, Val>, d0: int, o0: int, l0: int)
    reads a
    requires a.Length0 == |dates| && a.Length1 == |offsets| && a.Length2 == |locations|
  {
    forall d, o, l | 0 <= d < |dates| && 0 <= o < |offsets| && 0 <= l < |locations| ::
      a[d, o, l] == if Before3(d, o, l, d0, o0, l0) then Cell(table, KeyAt(dates[d], offsets[o], locations[l])) else None
  }

  /** `np.zeros([Ndates, Noffsets, Nlocations]) * np.nan` filled from a sparse table keyed
      by (date, offset, lat, lon, elev). */
  method Grid(dates: seq<Val>, offsets: seq<Val>, locations: seq<Site>, table: map<Key, Val>)
    returns (a: array3<Val>)
    ensures fresh(a)
    ensures a.Length0 == |dates| && a.Length1 == |offsets| && a.Length2 == |locations|
    ensures forall d, o, l | 0 <= d < |dates| && 0 <= o < |offsets| && 0 <= l < |locations| ::
      a[d, o, l] == Cell(table, KeyAt(dates[d], offsets[o], locations[l]))
  {
    a := new Val[|dates|, |offsets|, |locations|]((d, o, l) => None);
    for d := 0 to |dates|
      invariant Filled3(a, dates, offsets, locations, table, d, 0, 0)
    {
      for o := 0 to |offsets|
        invariant Filled3(a, dates, offsets, locations, table, d, o, 0)
      {
        FillLocations(a, dates, offsets, locations, table, d, o);
        assert Filled3(a, dates, offsets, locations, table, d, o + 1, 0);
      }
      assert Filled3(a, dates, offsets, locations, table, d + 1, 0, 0);
    }
  }

  /** The loop over locations for one date and offset: it fills cells (d, o, *), still NaN,
      and no others. */
  method FillLocations(a: array3<Val>, dates: seq<Val>, offsets: seq<Val>, locations: seq<Site>,
    table: map<Key, Val>, d: nat, o: nat)
    requires a.Length0 == |dates| && a.Length1 == |offsets| && a.Length2 == |locations|
    requires d < |dates| && o < |offsets|
    requires forall l | 0 <= l < |locations| :: a[d, o, l] == None
    modifies a
    ensures forall d', o', l | 0 <= d' < |dates| && 0 <= o' < |offsets| && 0 <= l < |locations| ::
      a[d', o', l] == if d' == d && o' == o then Cell(table, KeyAt(dates[d], offsets[o], locations[l])) else old(a[d', o', l])
  {
    for l := 0 to |locations|
      invariant forall d', o', l' | 0 <= d' < |dates| && 0 <= o' < |offsets| && 0 <= l' < |locations| ::
        a[d', o', l'] == if d' == d && o' == o && l' < l then Cell(table, KeyAt(dates[d], offsets[o], locations[l'])) else old(a[d', o', l'])
    {
      var key := KeyAt(dates[d], offsets[o], locations[l]);
      if key in table {
        a[d, o, l] := table[key];
      }
    }
  }

  /** Cell (d, o, l, q) comes no later than (d0, o0, l0, q0) in the loop order. */
  predicate Before4(d: int, o: int, l: int, q: int, d0: int, o0: int, l0: int, q0: int)
  {
    Before3(d, o, l, d0, o0, l0) || (d == d0 && o == o0 && l == l0 && q < q0)
  }

  ghost predicate Filled4(a: array4<Val>, dates: seq<Val>, offsets: seq<Val>, locations: seq<Site>,
    levels: seq<real>, table: map<LevelKey, Val>, d0: int, o0: int, l0: int, q0: int)
    reads a
    requires a.Length0 == |dates| && a.Length1 == |offsets| && a.Length2 == |locations| && a.Length3 == |levels|
  {
    forall d, o, l, q | 0 <= d < |dates| && 0 <= o < |offsets| && 0 <= l < |locations| && 0 <= q < |levels| ::
      a[d, o, l, q] == if Before4(d, o, l, q, d0, o0, l0, q0)
        then Cell(table, LevelKey(KeyAt(dates[d], offsets[o], locations[l]), levels[q])) else None
  }

  /** The quantile or threshold score array: NaN-filled, then each cell takes the entry
      of (date, offset, lat, lon, elev, level) when the table has one. */
  method LevelGrid(dates: seq<Val>, offsets: seq<Val>, locations: seq<Site>, levels: seq<real>,
    table: map<LevelKey, Val>) returns (a: array4<Val>)
    ensures fresh(a)
    ensures a.Length0 == |dates| && a.Length1 == |offsets| && a.Length2 == |locations| && a.Length3 == |levels|
    ensures forall d, o, l, q | 0 <= d < |dates| && 0 <= o < |offsets| && 0 <= l < |locations| && 0 <= q < |levels| ::
      a[d, o, l, q] == Cell(table, LevelKey(KeyAt(dates[d], offsets[o], locations[l]), levels[q]))
  {
    a := new Val[|dates|, |offsets|, |locations|, |levels|]((d, o, l, q) => None);
    for d := 0 to |dates|
      invariant Filled4(a, dates, offsets, locations, levels, table, d, 0, 0, 0)
    {
      for o := 0 to |offsets|
        invariant Filled4(a, dates, offsets, locations, levels, table, d, o, 0, 0)
      {
        FillLevelLocations(a, dates, offsets, locations, levels, table, d, o);
        assert Filled4(a, dates, offsets, locations, levels, table, d, o + 1, 0, 0);
      }
      assert Filled4(a, dates, offsets, locations, levels, table, d + 1, 0, 0, 0);
    }
  }

  /** The loop over locations for one date and offset: it fills cells (d, o, *, *), still
      NaN, and no others. */
  method FillLevelLocations(a: array4<Val>, dates: seq<Val>, offsets: seq<Val>, locations: seq<Site>,
    levels: seq<real>, table: map<LevelKey, Val>, d: nat, o: nat)
    requires a.Length0 == |dates| && a.Length1 == |offsets| && a.Length2 == |locations| && a.Length3 == |levels|
    requires d < |dates| && o < |offsets|
    requires forall l, q | 0 <= l < |locations| && 0 <= q < |levels| :: a[d, o, l, q] == None
    modifies a
    ensures forall d', o', l, q | 0 <= d' < |dates| && 0 <= o' < |offsets| && 0 <= l < |locations| && 0 <= q < |levels| ::
      a[d', o', l, q] == if d' == d && o' == o
        then Cell(table, LevelKey(KeyAt(dates[d], offsets[o], locations[l]), levels[q])) else old(a[d', o', l, q])
  {
    for l := 0 to |locations|
      invariant forall d', o', l', q | 0 <= d' < |dates| && 0 <= o' < |offsets| && 0 <= l' < |locations| && 0 <= q < |levels| ::
        a[d', o', l', q] == if d' == d && o' == o && l' < l
          then Cell(table, LevelKey(KeyAt(dates[d], offsets[o], locations[l']), levels[q])) else old(a[d', o', l', q])
    {
      FillLevels(a, dates, offsets, locations, levels, table, d, o, l);
    }
  }

  /** The loop over levels for one date, offset and location: it fills cells (d, o, l, *),
      still NaN, and no others. */
  method FillLevels(a: array4<Val>, dates: seq<Val>, offsets: seq<Val>, locations: seq<Site>,
    levels: seq<real>, table: map<LevelKey, Val>, d: nat, o: nat, l: nat)
    requires a.Length0 == |dates| && a.Length1 == |offsets| && a.Length2 == |locations| && a.Length3 == |levels|
    requires d < |dates| && o < |offsets| && l < |locations|
    requires forall q | 0 <= q < |levels| :: a[d, o, l, q] == None
    modifies a
    ensures forall d', o', l', q | 0 <= d' < |dates| && 0 <= o' < |offsets| && 0 <= l' < |locations| && 0 <= q < |levels| ::
      a[d', o', l', q] == if d' == d && o' == o && l' == l
        then Cell(table, LevelKey(KeyAt(dates[d], offsets[o], locations[l]), levels[q])) else old(a[d', o', l', q])
  {
    for q := 0 to |levels|
      invariant forall d', o', l', q' | 0 <= d' < |dates| && 0 <= o' < |offsets| && 0 <= l' < |locations| && 0 <= q' < |levels| ::
        a[d', o', l', q'] == if d' == d && o' == o && l' == l && q' < q
          then Cell(table, LevelKey(KeyAt(dates[d], offsets[o], locations[l]), levels[q'])) else old(a[d', o', l', q'])
    {
      var key := LevelKey(KeyAt(dates[d], offsets[o], locations[l]), levels[q]);
      if key in table {
        a[d, o, l, q] := table[key];
      }
    }
  }
}

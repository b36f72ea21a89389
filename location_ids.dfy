/** The last step of `Text.__init__`: locations read without an id (no `id` column, or a
    missing-value id) are numbered from one past the largest id present, or from 0. */
module LocationIds {
  import opened Common
  import opened TextScan

  /** The largest id among the locations that have one; NaN when none has. */
  function MaxId(sites: seq<Site>): (m: Val)
    ensures m.None? <==> forall i | 0 <= i < |sites| :: sites[i].id.None?
    ensures m.Some? ==> exists i | 0 <= i < |sites| :: sites[i].id == m
    ensures m.Some? ==> forall i | 0 <= i < |sites| && sites[i].id.Some? :: sites[i].id.value <= m.value
  {
    if sites == [] then None
    else
      var m := MaxId(sites[..|sites| - 1]);
      var id := sites[|sites| - 1].id;
      assert forall i | 0 <= i < |sites| - 1 :: sites[..|sites| - 1][i] == sites[i];
      if id.None? then m
      else if m.None? || id.value > m.value then id
      else m
  }

  /** The loop for `maxLocationId`: while the maximum is still NaN it takes the next
      location's id (NaN or not); after that only a larger id replaces it, and a NaN id
      never compares larger. */
  method MaxLocationId(sites: seq<Site>) returns (maxId: Val)
    ensures maxId == MaxId(sites)
  {
    maxId := None;
    for i := 0 to |sites|
      invariant maxId == MaxId(sites[..i])
    {
      assert sites[..i + 1][..i] == sites[..i];
      var id := sites[i].id;
      if maxId.None? {
        maxId := id;
      } else if id.Some? && id.value > maxId.value {
        maxId := id;
      }
    }
    assert sites[..|sites|] == sites;
  }

  /** The first id handed out. */
  function FirstNewId(sites: seq<Site>): real
  {
    match MaxId(sites)
    case None => 0.0
    case Some(m) => m + 1.0
  }

  /** The number of locations without an id before position `i`. */
  function Unnamed(sites: seq<Site>, i: int): (n: nat)
    requires 0 <= i <= |sites|
    ensures n <= i
  {
    if i == 0 then 0 else Unnamed(sites, i - 1) + (if sites[i - 1].id.None? then 1 else 0)
  }

  /** Location `i` once ids are assigned: one with an id keeps it, the n-th one without an
      id (counting from 0, in list order) gets `FirstNewId + n`. */
  function Numbered(sites: seq<Site>, i: int): Site
    requires 0 <= i < |sites|
  {
    if sites[i].id.Some? then sites[i]
    else sites[i].(id := Some(FirstNewId(sites) + Unnamed(sites, i) as real))
  }

  /** The loop over `self._locations` that gives every NaN id the next counter value. */
  method AssignIds(locations: array<Site>)
    modifies locations
    ensures forall i | 0 <= i < locations.Length :: locations[i] == Numbered(old(locations[..]), i)
  {
    ghost var before := locations[..];
    var maxId := MaxLocationId(locations[..]);
    var counter := 0.0;
    if maxId.Some? {
      counter := maxId.value + 1.0;
    }
    for i := 0 to locations.Length
      invariant counter == FirstNewId(before) + Unnamed(before, i) as real
      invariant forall k | i <= k < locations.Length :: locations[k] == before[k]
      invariant forall k | 0 <= k < i :: locations[k] == Numbered(before, k)
    {
      if locations[i].id.None? {
        locations[i] := locations[i].(id := Some(counter));
        counter := counter + 1.0;
      }
    }
  }

  /** A location without an id comes before a later position: the count grows past it. */
  lemma {:induction false} UnnamedGrows(sites: seq<Site>, i: int, j: int)
    requires 0 <= i < j <= |sites| && sites[i].id.None?
    ensures Unnamed(sites, i) < Unnamed(sites, j)
  {
    if j > i + 1 {
      UnnamedGrows(sites, i, j - 1);
    }
  }

  /** After numbering every location has an id, and if the ids read were distinct, all
      ids are: new ones exceed every id read, and each new one is used once. */
  lemma NumberedIdsDistinct(sites: seq<Site>)
    requires UniqueIds(sites)
    ensures forall i | 0 <= i < |sites| :: Numbered(sites, i).id.Some?
    ensures forall i, j | 0 <= i < j < |sites| :: Numbered(sites, i).id != Numbered(sites, j).id
  {
    forall i, j | 0 <= i < j < |sites|
      ensures Numbered(sites, i).id != Numbered(sites, j).id
    {
      if sites[i].id.None? && sites[j].id.None? {
        UnnamedGrows(sites, i, j);
      } else if sites[i].id.None? || sites[j].id.None? {
        var known := if sites[i].id.Some? then i else j;
        assert sites[known].id.value < FirstNewId(sites);
      }
    }
  }
}

/** The registration step of the grid element: the across lights, then the
    down lights, are handed one by one to the crossword's `setCellsForLight`,
    with grid positions as cell handles. */
module GridConnect {
  import opened Options
  import opened Grid
  import opened Engine

  /** The cells of the last light of `ls` with lid `lid`: a later light with
      the same lid replaces an earlier one's cells. */
  function Latest(ls: seq<ScannedLight>, lid: string): (r: Option<seq<Pos>>)
    ensures r.Some? <==> lid in LidsOf(ls)
    ensures r.Some? ==> ScannedLight(lid, r.value) in ls
  {
    if ls == [] then None
    else if ls[|ls| - 1].lid == lid then Some(ls[|ls| - 1].cells)
    else Latest(ls[..|ls| - 1], lid)
  }

  /** `Latest` picks the last light with the lid: the light at some index `j`
      carries it, and no light after `j` has that lid. */
  lemma {:induction false} LatestIsLast(ls: seq<ScannedLight>, lid: string)
    ensures Latest(ls, lid).Some? ==>
      exists j | 0 <= j < |ls| :: ls[j] == ScannedLight(lid, Latest(ls, lid).value) && forall k | j < k < |ls| :: ls[k].lid != lid
  {
    if ls != [] && ls[|ls| - 1].lid != lid {
      var init := ls[..|ls| - 1];
      LatestIsLast(init, lid);
      if Latest(ls, lid).Some? {
        var j :| 0 <= j < |init| && init[j] == ScannedLight(lid, Latest(init, lid).value)
          && forall k | j < k < |init| :: init[k].lid != lid;
        assert ls[j] == init[j];
      }
    } else if ls != [] {
      assert ls[|ls| - 1] == ScannedLight(lid, Latest(ls, lid).value);
    }
  }

  /** A lid carried by a single light names that light's cells. */
  lemma LatestOfUnique(ls: seq<ScannedLight>, l: ScannedLight)
    requires l in ls
    requires forall m | m in ls && m.lid == l.lid :: m == l
    ensures Latest(ls, l.lid) == Some(l.cells)
  {
  }

  /** The lids of the lights `ls`. */
  function LidsOf(ls: seq<ScannedLight>): set<string> {
    set l | l in ls :: l.lid
  }

  /** The cells of the lights `ls`. */
  function HandlesOf(ls: seq<ScannedLight>): set<Pos> {
    set l, p | l in ls && p in l.cells :: p
  }

  /** The light stored under `lid` has, in order, the CellInfos registered
      for `cells`. */
  ghost predicate Holds(cw: Crossword<Pos>, lid: string, cells: seq<Pos>)
    reads cw, cw.lights.Values
  {
    && lid in cw.lights
    && (forall p | p in cells :: p in cw.cells)
    && |cw.lights[lid].cellInfos| == |cells|
    && forall i :: 0 <= i < |cells| ==> cw.lights[lid].cellInfos[i] == cw.cells[cells[i]]
  }

  /** One turn of the registration loop: `setCellsForLight(light.lid,
      light.cells)` after the lights `prior`. */
  method Place(cw: Crossword<Pos>, light: ScannedLight, ghost prior: seq<ScannedLight>)
    requires cw.Valid() && cw.OwnLights()
    requires forall lid | lid in LidsOf(prior) :: Holds(cw, lid, Latest(prior, lid).value)
    modifies cw, cw.cells.Values, cw.lights.Values
    ensures cw.Valid() && cw.OwnLights()
    ensures cw.lights.Keys == old(cw.lights.Keys) + {light.lid}
    ensures cw.cells.Keys == old(cw.cells.Keys) + set p | p in light.cells
    ensures forall h | h in old(cw.cells) :: cw.cells[h] == old(cw.cells[h])
    ensures forall x | x in old(cw.cells.Values) :: x.contents == old(x.contents)
    ensures forall h | h in cw.cells && h !in old(cw.cells) :: cw.cells[h].contents == ""
    ensures forall lid | lid in LidsOf(prior + [light]) :: Holds(cw, lid, Latest(prior + [light], lid).value)
    ensures forall k | k in old(cw.lights) && k != light.lid ::
      cw.lights[k] == old(cw.lights[k]) && cw.lights[k].cellInfos == old(cw.lights[k].cellInfos)
    ensures forall x | x in cw.cells.Values :: x in old(cw.cells.Values) || fresh(x)
    ensures forall l | l in cw.lights.Values :: l in old(cw.lights.Values) || fresh(l)
  {
    cw.SetCellsForLight(light.lid, light.cells);
    forall lid | lid in LidsOf(prior + [light])
      ensures Holds(cw, lid, Latest(prior + [light], lid).value)
    {
      if lid != light.lid {
        assert lid in LidsOf(prior);
        var cells := Latest(prior, lid).value;
        assert old(Holds(cw, lid, cells));
        assert cw.lights[lid] != cw.lights[light.lid];
      }
    }
  }

  /** The `for (let light of lights)` loop of the grid element. */
  method Register(cw: Crossword<Pos>, ls: seq<ScannedLight>)
    requires cw.Valid() && cw.OwnLights()
    modifies cw, cw.cells.Values, cw.lights.Values
    ensures cw.Valid() && cw.OwnLights()
    ensures forall k | k in cw.lights :: k in old(cw.lights) || k in LidsOf(ls)
    ensures forall k | k in old(cw.lights) :: k in cw.lights
    ensures forall k | k in old(cw.lights) && k !in LidsOf(ls) ::
      cw.lights[k] == old(cw.lights[k]) && cw.lights[k].cellInfos == old(cw.lights[k].cellInfos)
    ensures forall h | h in old(cw.cells) :: h in cw.cells && cw.cells[h] == old(cw.cells[h])
    ensures forall h | h in cw.cells :: h in old(cw.cells) || h in HandlesOf(ls)
    ensures forall h | h in HandlesOf(ls) :: h in cw.cells
    ensures forall lid | lid in LidsOf(ls) :: Holds(cw, lid, Latest(ls, lid).value)
    ensures forall x | x in old(cw.cells.Values) :: x.contents == old(x.contents)
    ensures forall h | h in cw.cells && h !in old(cw.cells) :: cw.cells[h].contents == ""
  {
    for n := 0 to |ls|
      invariant cw.Valid() && cw.OwnLights()
      invariant forall k | k in cw.lights :: k in old(cw.lights) || k in LidsOf(ls[..n])
      invariant forall k | k in old(cw.lights) :: k in cw.lights
      invariant forall k | k in old(cw.lights) && k !in LidsOf(ls[..n]) ::
        cw.lights[k] == old(cw.lights[k]) && cw.lights[k].cellInfos == old(cw.lights[k].cellInfos)
      invariant forall h | h in old(cw.cells) :: h in cw.cells && cw.cells[h] == old(cw.cells[h])
      invariant forall h | h in cw.cells :: h in old(cw.cells) || h in HandlesOf(ls[..n])
      invariant forall h | h in HandlesOf(ls[..n]) :: h in cw.cells
      invariant forall lid | lid in LidsOf(ls[..n]) :: Holds(cw, lid, Latest(ls[..n], lid).value)
      invariant forall x | x in old(cw.cells.Values) :: x.contents == old(x.contents)
      invariant forall h | h in cw.cells && h !in old(cw.cells) :: cw.cells[h].contents == ""
      invariant forall x | x in cw.cells.Values :: x in old(cw.cells.Values) || fresh(x)
      invariant forall l | l in cw.lights.Values :: l in old(cw.lights.Values) || fresh(l)
    {
      assert ls[..n + 1] == ls[..n] + [ls[n]];
      Place(cw, ls[n], ls[..n]);
    }
    assert ls[..|ls|] == ls;
  }

  /** `connectedCallback` of the grid element, after the grid is built:
      scan across, scan down, register every light in that order. */
  method ConnectGrid(cw: Crossword<Pos>, grid: seq<seq<Slot>>)
    requires Rectangular(grid)
    requires cw.Valid() && cw.OwnLights()
    modifies cw, cw.cells.Values, cw.lights.Values
    ensures cw.Valid() && cw.OwnLights()
    ensures forall k | k in cw.lights :: k in old(cw.lights) || k in LidsOf(AllLights(grid))
    ensures forall k | k in old(cw.lights) :: k in cw.lights
    ensures forall h | h in cw.cells :: h in old(cw.cells) || h in HandlesOf(AllLights(grid))
    ensures forall h | h in HandlesOf(AllLights(grid)) :: h in cw.cells
    ensures forall lid | lid in LidsOf(AllLights(grid)) :: Holds(cw, lid, Latest(AllLights(grid), lid).value)
    ensures forall x | x in old(cw.cells.Values) :: x.contents == old(x.contents)
    ensures forall h | h in cw.cells && h !in old(cw.cells) :: cw.cells[h].contents == ""
  {
    var across := GetLights(grid, Across);
    var down := GetLights(grid, Down);
    Register(cw, across + down);
  }
}

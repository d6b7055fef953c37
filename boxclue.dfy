/** The box clue element: a clue written inside a grid cell, pointing through
    its `direction` attribute at the light that starts in a neighbouring
    cell. When connected it resolves the attribute to a target cell and
    direction, builds the target's lid from the `(row,column)` key and
    attaches itself as that light's clue. */
module BoxClue {
  import opened Options
  import opened Text
  import opened Grid
  import opened Engine
  import Lids

  /** The light a box clue points at: its start cell and its direction. */
  datatype Target = Target(row: int, column: int, dir: Dir)

  /** The six `direction` values the element understands. */
  const Supported: set<string> :=
    {"bottom-down", "right-across", "left-down", "right-down", "top-across", "bottom-across"}

  /** The side of the clue cell on which a neighbour lies, by row and column
      offset; `None` for a cell that is not a neighbour. */
  function SideOf(rowStep: int, columnStep: int): Option<string> {
    if rowStep == 1 && columnStep == 0 then Some("bottom")
    else if rowStep == -1 && columnStep == 0 then Some("top")
    else if rowStep == 0 && columnStep == 1 then Some("right")
    else if rowStep == 0 && columnStep == -1 then Some("left")
    else None
  }

  /** The `switch` on the `direction` attribute (absent: `None`). A supported
      value names a neighbouring cell by its side and the light's direction
      by its suffix; any other value resolves to nothing. */
  function Resolve(direction: Option<string>, row: int, column: int): (r: Option<Target>)
    ensures r.Some? <==> direction.Some? && direction.value in Supported
    ensures r.Some? ==>
      && SideOf(r.value.row - row, r.value.column - column).Some?
      && direction.value == SideOf(r.value.row - row, r.value.column - column).value + "-" + DirName(r.value.dir)
  {
    if direction.None? then None
    else
      match direction.value
      case "bottom-down" => Some(Target(row + 1, column, Down))
      case "right-across" => Some(Target(row, column + 1, Across))
      case "left-down" => Some(Target(row, column - 1, Down))
      case "right-down" => Some(Target(row, column + 1, Down))
      case "top-across" => Some(Target(row - 1, column, Across))
      case "bottom-across" => Some(Target(row + 1, column, Across))
      case _ => None
  }

  /** A supported value is determined by the target it resolves to: the
      table is one-to-one. */
  lemma ResolveIsInjective(a: string, b: string, row: int, column: int)
    requires Resolve(Some(a), row, column).Some?
    requires Resolve(Some(a), row, column) == Resolve(Some(b), row, column)
    ensures a == b
  {
  }

  /** The lid `setLight` builds: `new Lid(type, "(row,column)")`, keyed by
      its string. */
  function TargetLid(t: Target): (lid: string)
    ensures lid == Lids.Canonical(Lids.New(DirName(t.dir), Some(CoordKey(t.row, t.column))))
  {
    CoordKey(t.row, t.column) + "-" + DirName(t.dir)
  }

  /** A box clue reaches a light whose start cell has no number: its lid is
      the one the scanner gives that light. */
  lemma TargetLidMatchesScanner(grid: seq<seq<Slot>>, d: Dir, i: nat, s: nat)
    requires InGrid(grid, d, i, s) && At(grid, d, i, s).Cell?
    requires At(grid, d, i, s).number.None? || At(grid, d, i, s).number.value == ""
    ensures LidFor(grid, d, i, s) == TargetLid(Target(PosAt(d, i, s).row, PosAt(d, i, s).column, d))
  {
  }

  /** A light whose start cell has a number not beginning with `(` is out
      of reach of every box clue: no target lid equals the scanner's. */
  lemma NumberedStartUnreachable(grid: seq<seq<Slot>>, d: Dir, i: nat, s: nat, t: Target)
    requires InGrid(grid, d, i, s) && At(grid, d, i, s).Cell?
    requires At(grid, d, i, s).number.Some? && At(grid, d, i, s).number.value != ""
    requires At(grid, d, i, s).number.value[0] != '('
    ensures LidFor(grid, d, i, s) != TargetLid(t)
  {
    var n := At(grid, d, i, s).number.value;
    assert LidFor(grid, d, i, s)[0] == n[0];
    assert TargetLid(t)[0] == CoordKey(t.row, t.column)[0] == '(';
  }

  datatype BoxOutcome =
    | Unattached            // no supported `direction`: `setLight` is not called
    | NoLight               // no light under the target lid: `.clue` of undefined throws
    | Attached(lid: string) // the clue is the light's; focus will move the cursor there

  /** `connectedCallback` with the clue's `row` and `column` as inputs, and
      `setLight`: resolve the attribute, look the lid up with `getLight`
      (not `getOrAddLight`) and set the light's clue. */
  method Connect<C(==)>(cw: Crossword<C>, direction: Option<string>, row: int, column: int, clue: nat)
    returns (outcome: BoxOutcome)
    modifies cw.lights.Values
    ensures outcome == Unattached <==> Resolve(direction, row, column).None?
    ensures outcome == NoLight <==>
      Resolve(direction, row, column).Some? && TargetLid(Resolve(direction, row, column).value) !in cw.lights
    ensures outcome.Attached? ==>
      && outcome.lid == TargetLid(Resolve(direction, row, column).value)
      && outcome.lid in cw.lights
      && cw.lights[outcome.lid].clue == Some(clue)
      && cw.lights[outcome.lid].cellInfos == old(cw.lights[outcome.lid].cellInfos)
      && cw.lights[outcome.lid].listeners == old(cw.lights[outcome.lid].listeners)
      && cw.lights[outcome.lid].log == old(cw.lights[outcome.lid].log)
    ensures forall l | l in cw.lights.Values && (!outcome.Attached? || l != cw.lights[outcome.lid]) ::
      l.clue == old(l.clue) && l.cellInfos == old(l.cellInfos) && l.listeners == old(l.listeners) && l.log == old(l.log)
  {
    var target := Resolve(direction, row, column);
    if target.None? {
      return Unattached;
    }
    var lid := TargetLid(target.value);
    var found := cw.GetLight(lid);
    if found.None? {
      return NoLight;
    }
    found.value.clue := Some(clue);
    outcome := Attached(lid);
  }
}

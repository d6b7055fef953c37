/** The light scanner of the grid element: `getLights` walks every row (for
    across lights) or every column (for down lights) of a rectangular grid of
    slots and cuts it into lights. The same loop serves both directions through
    an indexer that swaps row and column. */
module Grid {
  import opened Options
  import opened Text

  datatype Dir = Across | Down

  /** The attribute name of a direction, also the suffix of its lids. */
  function DirName(d: Dir): string {
    match d
    case Across => "across"
    case Down => "down"
  }

  /** One element of the grid: a `kw-c` cell with its optional `across` and
      `down` attributes and its optional `number` attribute, a `kw-b` block, or
      any other element. */
  datatype Slot =
    | Cell(across: Option<string>, down: Option<string>, number: Option<string>)
    | Block
    | Other

  /** A cell is identified by its place in the grid. */
  datatype Pos = Pos(row: nat, column: nat)

  /** One light as the scanner emits it: its lid string and its cells. */
  datatype ScannedLight = ScannedLight(lid: string, cells: seq<Pos>)

  /** The value of the direction's attribute, `None` when the attribute is absent. */
  function Marker(s: Slot, d: Dir): Option<string>
    requires s.Cell?
  {
    match d
    case Across => s.across
    case Down => s.down
  }

  /** A cell that opens a light in direction `d`. */
  predicate IsStart(s: Slot, d: Dir) {
    s.Cell? && Marker(s, d).Some? && Marker(s, d).value != "no-light"
  }

  /** A slot that closes whatever light is open: a block, or a cell carrying
      the direction's attribute (including "no-light"). */
  predicate Interrupts(s: Slot, d: Dir) {
    s.Block? || (s.Cell? && Marker(s, d).Some?)
  }

  ghost predicate Rectangular(grid: seq<seq<Slot>>) {
    |grid| > 0 && forall r :: 0 <= r < |grid| ==> |grid[r]| == |grid[0]|
  }

  /** Number of scan lines: rows for across, columns for down. */
  function Lines(grid: seq<seq<Slot>>, d: Dir): nat
    requires |grid| > 0
  {
    match d
    case Across => |grid|
    case Down => |grid[0]|
  }

  /** Length of one scan line. */
  function LineLength(grid: seq<seq<Slot>>, d: Dir): nat
    requires |grid| > 0
  {
    match d
    case Across => |grid[0]|
    case Down => |grid|
  }

  /** The grid position of the `j`-th slot of scan line `i`: the indexer
      `(i, j) => grid[i][j]` for across and `(i, j) => grid[j][i]` for down. */
  function PosAt(d: Dir, i: nat, j: nat): Pos {
    match d
    case Across => Pos(i, j)
    case Down => Pos(j, i)
  }

  /** The scan line a position lies on and its place along that line. */
  function LineOf(d: Dir, p: Pos): nat {
    match d
    case Across => p.row
    case Down => p.column
  }

  function Along(d: Dir, p: Pos): nat {
    match d
    case Across => p.column
    case Down => p.row
  }

  ghost predicate InGrid(grid: seq<seq<Slot>>, d: Dir, i: nat, j: nat) {
    Rectangular(grid) && i < Lines(grid, d) && j < LineLength(grid, d)
  }

  function At(grid: seq<seq<Slot>>, d: Dir, i: nat, j: nat): Slot
    requires InGrid(grid, d, i, j)
  {
    var p := PosAt(d, i, j);
    grid[p.row][p.column]
  }

  /** The lid of a light opened at slot `s` of line `i`: the cell's number
      when it has a non-empty one, otherwise its `(row,column)` key, followed
      by `-` and the direction. */
  function LidFor(grid: seq<seq<Slot>>, d: Dir, i: nat, s: nat): string
    requires InGrid(grid, d, i, s) && At(grid, d, i, s).Cell?
  {
    var slot := At(grid, d, i, s);
    var p := PosAt(d, i, s);
    if slot.number.Some? && slot.number.value != "" then slot.number.value + "-" + DirName(d)
    else CoordKey(p.row, p.column) + "-" + DirName(d)
  }

  /** Every lid ends with a dash and the direction's name; without a number
      it begins with the `(` of the coordinate key. */
  lemma LidShape(grid: seq<seq<Slot>>, d: Dir, i: nat, s: nat)
    requires InGrid(grid, d, i, s) && At(grid, d, i, s).Cell?
    ensures var lid := LidFor(grid, d, i, s);
      |lid| > |DirName(d)| && lid[|lid| - |DirName(d)| - 1..] == "-" + DirName(d)
    ensures At(grid, d, i, s).number.None? || At(grid, d, i, s).number.value == "" ==>
      LidFor(grid, d, i, s)[0] == '('
  {
  }

  // ---------------------------------------------------------------------
  // The reference definition: which cells make up the light opened at `s`.

  /** Slot `k` of line `i` belongs to the light opened at slot `s`: `s` opens a
      light, `k` is a cell at or after `s`, and no block and no cell carrying
      the direction's attribute lies after `s` up to and including `k`. Other
      elements neither close nor extend the light. */
  ghost predicate InLight(grid: seq<seq<Slot>>, d: Dir, i: nat, s: nat, k: nat) {
    && InGrid(grid, d, i, k)
    && s <= k
    && IsStart(At(grid, d, i, s), d)
    && At(grid, d, i, k).Cell?
    && forall t :: s < t <= k ==> !Interrupts(At(grid, d, i, t), d)
  }

  /** The cells among the first `j` slots of line `i` that belong to the light
      opened at `s`, in scan order. */
  ghost function Members(grid: seq<seq<Slot>>, d: Dir, i: nat, s: nat, j: nat): seq<Pos>
    requires Rectangular(grid) && i < Lines(grid, d) && j <= LineLength(grid, d)
  {
    if j == 0 then []
    else Members(grid, d, i, s, j - 1) + (if InLight(grid, d, i, s, j - 1) then [PosAt(d, i, j - 1)] else [])
  }

  /** The complete light opened at slot `s` of line `i`. */
  ghost function FullLight(grid: seq<seq<Slot>>, d: Dir, i: nat, s: nat): ScannedLight
    requires InGrid(grid, d, i, s) && At(grid, d, i, s).Cell?
  {
    ScannedLight(LidFor(grid, d, i, s), Members(grid, d, i, s, LineLength(grid, d)))
  }

  /** The lights opened among the first `j` slots of line `i`, in scan order. */
  ghost function LineLights(grid: seq<seq<Slot>>, d: Dir, i: nat, j: nat): seq<ScannedLight>
    requires Rectangular(grid) && i < Lines(grid, d) && j <= LineLength(grid, d)
  {
    if j == 0 then []
    else LineLights(grid, d, i, j - 1)
         + (if IsStart(At(grid, d, i, j - 1), d) then [FullLight(grid, d, i, j - 1)] else [])
  }

  /** The lights of the first `n` scan lines, line by line. */
  ghost function DirLights(grid: seq<seq<Slot>>, d: Dir, n: nat): seq<ScannedLight>
    requires Rectangular(grid) && n <= Lines(grid, d)
  {
    if n == 0 then []
    else DirLights(grid, d, n - 1) + LineLights(grid, d, n - 1, LineLength(grid, d))
  }

  /** All lights of the grid: the across lights, then the down lights. */
  ghost function AllLights(grid: seq<seq<Slot>>): seq<ScannedLight>
    requires Rectangular(grid)
  {
    DirLights(grid, Across, Lines(grid, Across)) + DirLights(grid, Down, Lines(grid, Down))
  }

  // ---------------------------------------------------------------------
  // The scanning loop.

  /** The light left open after the first `j` slots of line `i` (its start). */
  ghost function Open(grid: seq<seq<Slot>>, d: Dir, i: nat, j: nat): Option<nat>
    requires Rectangular(grid) && i < Lines(grid, d) && j <= LineLength(grid, d)
  {
    if j == 0 then None
    else if IsStart(At(grid, d, i, j - 1), d) then Some(j - 1)
    else if Interrupts(At(grid, d, i, j - 1), d) then None
    else Open(grid, d, i, j - 1)
  }

  lemma {:induction false} OpenIsUninterrupted(grid: seq<seq<Slot>>, d: Dir, i: nat, j: nat)
    requires Rectangular(grid) && i < Lines(grid, d) && j <= LineLength(grid, d)
    ensures Open(grid, d, i, j).Some? ==>
      var s := Open(grid, d, i, j).value;
      && s < j
      && IsStart(At(grid, d, i, s), d)
      && forall t :: s < t < j ==> !Interrupts(At(grid, d, i, t), d)
  {
    if j > 0 {
      OpenIsUninterrupted(grid, d, i, j - 1);
    }
  }

  lemma {:induction false} MembersBeforeStart(grid: seq<seq<Slot>>, d: Dir, i: nat, s: nat, j: nat)
    requires Rectangular(grid) && i < Lines(grid, d) && j <= LineLength(grid, d) && j <= s
    ensures Members(grid, d, i, s, j) == []
  {
    if j > 0 {
      MembersBeforeStart(grid, d, i, s, j - 1);
    }
  }

  /** Once a slot after the start interrupts, the light gains no more cells. */
  lemma {:induction false} MembersClosed(grid: seq<seq<Slot>>, d: Dir, i: nat, s: nat, c: nat, j: nat)
    requires Rectangular(grid) && i < Lines(grid, d) && c < LineLength(grid, d) && c <= j <= LineLength(grid, d)
    requires s < c && Interrupts(At(grid, d, i, c), d)
    ensures Members(grid, d, i, s, j) == Members(grid, d, i, s, c)
  {
    if j > c {
      MembersClosed(grid, d, i, s, c, j - 1);
      assert !InLight(grid, d, i, s, j - 1) by {
        if j - 1 > c {
          assert s < c <= j - 1;
        }
      }
    }
  }

  /** `getLights(dirWidth, dirLength, dirName, indexer, cellNamer)`: the lights
      of direction `d`, line by line and within a line in order of their start
      cells, each exactly as the reference definition describes it. */
  method GetLights(grid: seq<seq<Slot>>, d: Dir) returns (lights: seq<ScannedLight>)
    requires Rectangular(grid)
    ensures lights == DirLights(grid, d, Lines(grid, d))
  {
    lights := [];
    for i := 0 to Lines(grid, d)
      invariant lights == DirLights(grid, d, i)
    {
      lights := ScanLine(grid, d, i, lights);
    }
  }

  /** What holds after the first `j` slots of line `i`: the open light, if
      any, is the one opened at `Open(...)` with the cells seen so far, and the
      emitted lights are those of the starts before `j`, the open one excepted. */
  ghost predicate ScanInv(grid: seq<seq<Slot>>, d: Dir, i: nat, j: nat, prior: seq<ScannedLight>,
                          light: Option<ScannedLight>, lights: seq<ScannedLight>)
    requires Rectangular(grid) && i < Lines(grid, d) && j <= LineLength(grid, d)
  {
    && (light.None? <==> Open(grid, d, i, j).None?)
    && (light.None? ==> lights == prior + LineLights(grid, d, i, j))
    && (light.Some? ==>
          var s := Open(grid, d, i, j).value;
          && s < j && At(grid, d, i, s).Cell?
          && light.value == ScannedLight(LidFor(grid, d, i, s), Members(grid, d, i, s, j))
          && lights + [FullLight(grid, d, i, s)] == prior + LineLights(grid, d, i, j))
  }

  /** An unmarked cell extends the open light. */
  lemma StepExtend(grid: seq<seq<Slot>>, d: Dir, i: nat, j: nat, prior: seq<ScannedLight>,
                   light: Option<ScannedLight>, lights: seq<ScannedLight>)
    requires Rectangular(grid) && i < Lines(grid, d) && j < LineLength(grid, d)
    requires ScanInv(grid, d, i, j, prior, light, lights)
    requires light.Some? && At(grid, d, i, j).Cell? && Marker(At(grid, d, i, j), d).None?
    ensures ScanInv(grid, d, i, j + 1, prior,
                    Some(light.value.(cells := light.value.cells + [PosAt(d, i, j)])), lights)
  {
    OpenIsUninterrupted(grid, d, i, j);
    var s := Open(grid, d, i, j).value;
    assert InLight(grid, d, i, s, j);
    assert Open(grid, d, i, j + 1) == Open(grid, d, i, j);
    assert LineLights(grid, d, i, j + 1) == LineLights(grid, d, i, j);
  }

  /** A cell carrying the direction's attribute closes the open light and opens
      a new one unless the attribute is "no-light". */
  lemma StepMarked(grid: seq<seq<Slot>>, d: Dir, i: nat, j: nat, prior: seq<ScannedLight>,
                   light: Option<ScannedLight>, lights: seq<ScannedLight>)
    requires Rectangular(grid) && i < Lines(grid, d) && j < LineLength(grid, d)
    requires ScanInv(grid, d, i, j, prior, light, lights)
    requires At(grid, d, i, j).Cell? && Marker(At(grid, d, i, j), d).Some?
    ensures var closed := if light.Some? then lights + [light.value] else lights;
      ScanInv(grid, d, i, j + 1, prior,
              if Marker(At(grid, d, i, j), d).value != "no-light"
              then Some(ScannedLight(LidFor(grid, d, i, j), [PosAt(d, i, j)])) else None,
              closed)
  {
    if light.Some? {
      MembersClosed(grid, d, i, Open(grid, d, i, j).value, j, LineLength(grid, d));
    }
    if Marker(At(grid, d, i, j), d).value != "no-light" {
      MembersBeforeStart(grid, d, i, j, j);
      assert InLight(grid, d, i, j, j);
      assert Members(grid, d, i, j, j + 1) == [PosAt(d, i, j)];
    }
  }

  /** A block closes the open light. */
  lemma StepBlock(grid: seq<seq<Slot>>, d: Dir, i: nat, j: nat, prior: seq<ScannedLight>,
                  light: Option<ScannedLight>, lights: seq<ScannedLight>)
    requires Rectangular(grid) && i < Lines(grid, d) && j < LineLength(grid, d)
    requires ScanInv(grid, d, i, j, prior, light, lights)
    requires At(grid, d, i, j).Block? && light.Some?
    ensures ScanInv(grid, d, i, j + 1, prior, None, lights + [light.value])
  {
    MembersClosed(grid, d, i, Open(grid, d, i, j).value, j, LineLength(grid, d));
  }

  /** Any other slot changes nothing: an unmarked cell with no light open, a
      block with no light open, or an element that is neither cell nor block. */
  lemma StepSkip(grid: seq<seq<Slot>>, d: Dir, i: nat, j: nat, prior: seq<ScannedLight>,
                 light: Option<ScannedLight>, lights: seq<ScannedLight>)
    requires Rectangular(grid) && i < Lines(grid, d) && j < LineLength(grid, d)
    requires ScanInv(grid, d, i, j, prior, light, lights)
    requires var c := At(grid, d, i, j);
      (c.Cell? && Marker(c, d).None? && light.None?) || (c.Block? && light.None?) || c.Other?
    ensures ScanInv(grid, d, i, j + 1, prior, light, lights)
  {
    if light.Some? {
      var s := Open(grid, d, i, j).value;
      assert !InLight(grid, d, i, s, j);
    }
  }

  /** One pass of the outer loop of `getLights`: walks line `i` with the open
      light in `light`, appending every light it closes to `lights`. */
  method ScanLine(grid: seq<seq<Slot>>, d: Dir, i: nat, prior: seq<ScannedLight>)
      returns (lights: seq<ScannedLight>)
    requires Rectangular(grid) && i < Lines(grid, d)
    ensures lights == prior + LineLights(grid, d, i, LineLength(grid, d))
  {
    var length := LineLength(grid, d);
    lights := prior;
    var light: Option<ScannedLight> := None;
    for j := 0 to length
      invariant ScanInv(grid, d, i, j, prior, light, lights)
    {
      var cell := At(grid, d, i, j);
      var p := PosAt(d, i, j);
      if light.Some? && cell.Cell? && Marker(cell, d).None? {
        StepExtend(grid, d, i, j, prior, light, lights);
        light := Some(light.value.(cells := light.value.cells + [p]));
      } else if cell.Cell? && Marker(cell, d).Some? {
        StepMarked(grid, d, i, j, prior, light, lights);
        if light.Some? {
          lights := lights + [light.value];
        }
        if Marker(cell, d).value != "no-light" {
          light := Some(ScannedLight(LidFor(grid, d, i, j), [p]));
        } else {
          light := None;
        }
      } else if cell.Block? && light.Some? {
        StepBlock(grid, d, i, j, prior, light, lights);
        lights := lights + [light.value];
        light := None;
      } else {
        StepSkip(grid, d, i, j, prior, light, lights);
      }
    }
    if light.Some? {
      lights := lights + [light.value];
    }
  }

  // ---------------------------------------------------------------------
  // Properties of the lights.

  /** `p` is the slot at place `Along(d, p)` of line `i` and belongs to the
      light opened at `s`. */
  ghost predicate MemberOf(grid: seq<seq<Slot>>, d: Dir, i: nat, s: nat, p: Pos) {
    && LineOf(d, p) == i
    && PosAt(d, i, Along(d, p)) == p
    && InLight(grid, d, i, s, Along(d, p))
  }

  /** A light as the scanner promises it: non-empty; its first cell opens a
      light (its direction attribute is present and not "no-light"); its lid
      is that cell's number or coordinates; all its cells lie on the same
      scan line, after the start with no interrupting slot in between, in
      strictly increasing order; and its cells are exactly the slots the
      reference definition assigns to that start. */
  ghost predicate WellFormed(grid: seq<seq<Slot>>, d: Dir, l: ScannedLight)
    requires Rectangular(grid)
  {
    && |l.cells| > 0
    && var i := LineOf(d, l.cells[0]);
       var s := Along(d, l.cells[0]);
       && InGrid(grid, d, i, s)
       && IsStart(At(grid, d, i, s), d)
       && l.lid == LidFor(grid, d, i, s)
       && (forall p | p in l.cells :: MemberOf(grid, d, i, s, p))
       && Increasing(d, l.cells)
       && (forall t | 0 <= t < LineLength(grid, d) :: PosAt(d, i, t) in l.cells <==> InLight(grid, d, i, s, t))
  }

  /** The positions lie at strictly increasing places along their line. */
  predicate Increasing(d: Dir, ps: seq<Pos>) {
    forall a, b | 0 <= a < b < |ps| :: Along(d, ps[a]) < Along(d, ps[b])
  }

  lemma PosAtInverse(d: Dir, i: nat, t: nat)
    ensures LineOf(d, PosAt(d, i, t)) == i && Along(d, PosAt(d, i, t)) == t
  {
  }

  lemma {:induction false} MembersShape(grid: seq<seq<Slot>>, d: Dir, i: nat, s: nat, j: nat)
    requires Rectangular(grid) && i < Lines(grid, d) && j <= LineLength(grid, d)
    ensures forall p | p in Members(grid, d, i, s, j) :: MemberOf(grid, d, i, s, p) && Along(d, p) < j
  {
    if j > 0 {
      MembersShape(grid, d, i, s, j - 1);
      PosAtInverse(d, i, j - 1);
      var m0 := Members(grid, d, i, s, j - 1);
      var m := Members(grid, d, i, s, j);
      if InLight(grid, d, i, s, j - 1) {
        assert m == m0 + [PosAt(d, i, j - 1)];
        assert MemberOf(grid, d, i, s, PosAt(d, i, j - 1));
      } else {
        assert m == m0;
      }
    }
  }

  lemma {:induction false} MembersIncreasing(grid: seq<seq<Slot>>, d: Dir, i: nat, s: nat, j: nat)
    requires Rectangular(grid) && i < Lines(grid, d) && j <= LineLength(grid, d)
    ensures Increasing(d, Members(grid, d, i, s, j))
  {
    if j > 0 {
      MembersIncreasing(grid, d, i, s, j - 1);
      var m0 := Members(grid, d, i, s, j - 1);
      var m := Members(grid, d, i, s, j);
      if InLight(grid, d, i, s, j - 1) {
        MembersShape(grid, d, i, s, j - 1);
        PosAtInverse(d, i, j - 1);
        assert m == m0 + [PosAt(d, i, j - 1)];
        forall a, b | 0 <= a < b < |m|
          ensures Along(d, m[a]) < Along(d, m[b])
        {
          assert m[a] == m0[a] && m0[a] in m0;
          assert Along(d, m0[a]) < j - 1;
          if b < |m0| {
            assert m[b] == m0[b];
          } else {
            assert m[b] == PosAt(d, i, j - 1);
            assert Along(d, m[b]) == j - 1;
          }
        }
      } else {
        assert m == m0;
      }
    }
  }

  lemma {:induction false} MembersComplete(grid: seq<seq<Slot>>, d: Dir, i: nat, s: nat, j: nat)
    requires Rectangular(grid) && i < Lines(grid, d) && j <= LineLength(grid, d)
    ensures forall t | 0 <= t < j && InLight(grid, d, i, s, t) :: PosAt(d, i, t) in Members(grid, d, i, s, j)
  {
    if j > 0 {
      MembersComplete(grid, d, i, s, j - 1);
    }
  }

  lemma {:induction false} MembersStartWithStart(grid: seq<seq<Slot>>, d: Dir, i: nat, s: nat, j: nat)
    requires Rectangular(grid) && i < Lines(grid, d) && s < j <= LineLength(grid, d)
    requires IsStart(At(grid, d, i, s), d)
    ensures |Members(grid, d, i, s, j)| > 0 && Members(grid, d, i, s, j)[0] == PosAt(d, i, s)
  {
    if j - 1 == s {
      MembersBeforeStart(grid, d, i, s, s);
      assert InLight(grid, d, i, s, s);
    } else {
      MembersStartWithStart(grid, d, i, s, j - 1);
    }
  }

  lemma FullLightFirst(grid: seq<seq<Slot>>, d: Dir, i: nat, s: nat)
    requires InGrid(grid, d, i, s) && IsStart(At(grid, d, i, s), d)
    ensures |FullLight(grid, d, i, s).cells| > 0 && FullLight(grid, d, i, s).cells[0] == PosAt(d, i, s)
  {
    MembersStartWithStart(grid, d, i, s, LineLength(grid, d));
  }

  lemma FullLightWellFormed(grid: seq<seq<Slot>>, d: Dir, i: nat, s: nat)
    requires InGrid(grid, d, i, s) && IsStart(At(grid, d, i, s), d)
    ensures WellFormed(grid, d, FullLight(grid, d, i, s))
  {
    var n := LineLength(grid, d);
    MembersShape(grid, d, i, s, n);
    MembersIncreasing(grid, d, i, s, n);
    MembersComplete(grid, d, i, s, n);
    FullLightFirst(grid, d, i, s);
    PosAtInverse(d, i, s);
    var m := Members(grid, d, i, s, n);
    forall t | 0 <= t < n && PosAt(d, i, t) in m
      ensures InLight(grid, d, i, s, t)
    {
      PosAtInverse(d, i, t);
      assert MemberOf(grid, d, i, s, PosAt(d, i, t));
    }
  }

  /** Every emitted light is well formed. */
  lemma {:induction false} LineLightsWellFormed(grid: seq<seq<Slot>>, d: Dir, i: nat, j: nat)
    requires Rectangular(grid) && i < Lines(grid, d) && j <= LineLength(grid, d)
    ensures forall l | l in LineLights(grid, d, i, j) :: WellFormed(grid, d, l)
  {
    if j > 0 {
      LineLightsWellFormed(grid, d, i, j - 1);
      if IsStart(At(grid, d, i, j - 1), d) {
        FullLightWellFormed(grid, d, i, j - 1);
      }
    }
  }

  lemma {:induction false} LightsAreWellFormed(grid: seq<seq<Slot>>, d: Dir, n: nat)
    requires Rectangular(grid) && n <= Lines(grid, d)
    ensures forall l | l in DirLights(grid, d, n) :: WellFormed(grid, d, l)
  {
    if n > 0 {
      LightsAreWellFormed(grid, d, n - 1);
      LineLightsWellFormed(grid, d, n - 1, LineLength(grid, d));
    }
  }

  /** `p` comes before `q` in the scan of direction `d`: an earlier line, or
      the same line and an earlier slot. */
  predicate ScanBefore(d: Dir, p: Pos, q: Pos) {
    LineOf(d, p) < LineOf(d, q) || (LineOf(d, p) == LineOf(d, q) && Along(d, p) < Along(d, q))
  }

  /** Light `a` starts before light `b` in scan order. */
  predicate StartsBefore(d: Dir, a: ScannedLight, b: ScannedLight) {
    |a.cells| > 0 && |b.cells| > 0 && ScanBefore(d, a.cells[0], b.cells[0])
  }

  /** Each light starts before every later one. */
  predicate InStartOrder(d: Dir, ls: seq<ScannedLight>) {
    forall a, b | 0 <= a < b < |ls| :: StartsBefore(d, ls[a], ls[b])
  }

  /** Light `l` starts on line `i` before slot `j`. */
  predicate StartsOn(d: Dir, l: ScannedLight, i: nat, j: nat) {
    |l.cells| > 0 && LineOf(d, l.cells[0]) == i && Along(d, l.cells[0]) < j
  }

  lemma {:induction false} LineLightsStarts(grid: seq<seq<Slot>>, d: Dir, i: nat, j: nat)
    requires Rectangular(grid) && i < Lines(grid, d) && j <= LineLength(grid, d)
    ensures forall l | l in LineLights(grid, d, i, j) :: StartsOn(d, l, i, j)
  {
    if j > 0 {
      LineLightsStarts(grid, d, i, j - 1);
      var ls0 := LineLights(grid, d, i, j - 1);
      var ls := LineLights(grid, d, i, j);
      if IsStart(At(grid, d, i, j - 1), d) {
        var last := FullLight(grid, d, i, j - 1);
        FullLightFirst(grid, d, i, j - 1);
        PosAtInverse(d, i, j - 1);
        assert StartsOn(d, last, i, j);
        assert ls == ls0 + [last];
        forall l | l in ls
          ensures StartsOn(d, l, i, j)
        {
          if l != last {
            assert l in ls0;
          }
        }
      } else {
        assert ls == ls0;
      }
    }
  }

  lemma {:induction false} LineLightsOrdered(grid: seq<seq<Slot>>, d: Dir, i: nat, j: nat)
    requires Rectangular(grid) && i < Lines(grid, d) && j <= LineLength(grid, d)
    ensures InStartOrder(d, LineLights(grid, d, i, j))
  {
    if j > 0 {
      LineLightsOrdered(grid, d, i, j - 1);
      var ls0 := LineLights(grid, d, i, j - 1);
      var ls := LineLights(grid, d, i, j);
      if IsStart(At(grid, d, i, j - 1), d) {
        LineLightsStarts(grid, d, i, j - 1);
        FullLightFirst(grid, d, i, j - 1);
        PosAtInverse(d, i, j - 1);
        var last := FullLight(grid, d, i, j - 1);
        assert ls == ls0 + [last];
        forall a, b | 0 <= a < b < |ls|
          ensures StartsBefore(d, ls[a], ls[b])
        {
          assert ls[a] == ls0[a] && ls0[a] in ls0;
          if b < |ls0| {
            assert ls[b] == ls0[b];
          } else {
            assert ls[b] == last;
          }
        }
      } else {
        assert ls == ls0;
      }
    }
  }

  lemma {:induction false} DirLightsStarts(grid: seq<seq<Slot>>, d: Dir, n: nat)
    requires Rectangular(grid) && n <= Lines(grid, d)
    ensures forall l | l in DirLights(grid, d, n) :: |l.cells| > 0 && LineOf(d, l.cells[0]) < n
  {
    if n > 0 {
      DirLightsStarts(grid, d, n - 1);
      LineLightsStarts(grid, d, n - 1, LineLength(grid, d));
    }
  }

  /** The lights of one direction come in the order of their start cells:
      row-major for across, column-major for down. */
  lemma {:induction false} LightsInStartOrder(grid: seq<seq<Slot>>, d: Dir, n: nat)
    requires Rectangular(grid) && n <= Lines(grid, d)
    ensures InStartOrder(d, DirLights(grid, d, n))
  {
    if n > 0 {
      var front := DirLights(grid, d, n - 1);
      var back := LineLights(grid, d, n - 1, LineLength(grid, d));
      assert DirLights(grid, d, n) == front + back;
      LightsInStartOrder(grid, d, n - 1);
      DirLightsStarts(grid, d, n - 1);
      LineLightsStarts(grid, d, n - 1, LineLength(grid, d));
      LineLightsOrdered(grid, d, n - 1, LineLength(grid, d));
      ConcatInStartOrder(d, front, back, n - 1);
    }
  }

  /** Lights of earlier lines, then lights of line `i`, each run in start
      order, are in start order together. */
  lemma ConcatInStartOrder(d: Dir, front: seq<ScannedLight>, back: seq<ScannedLight>, i: nat)
    requires InStartOrder(d, front) && InStartOrder(d, back)
    requires forall l | l in front :: |l.cells| > 0 && LineOf(d, l.cells[0]) < i
    requires forall l | l in back :: |l.cells| > 0 && LineOf(d, l.cells[0]) == i
    ensures InStartOrder(d, front + back)
  {
    var ls := front + back;
    forall a, b | 0 <= a < b < |ls|
      ensures StartsBefore(d, ls[a], ls[b])
    {
      if b < |front| {
        assert ls[a] == front[a] && ls[b] == front[b];
      } else if a < |front| {
        assert ls[a] == front[a] && front[a] in front;
        assert ls[b] == back[b - |front|] && back[b - |front|] in back;
      } else {
        assert ls[a] == back[a - |front|] && ls[b] == back[b - |front|];
      }
    }
  }

  /** Two different lights of one direction share no cell: each cell is in at
      most one across light and at most one down light. */
  lemma CellInAtMostOneLight(grid: seq<seq<Slot>>, d: Dir, a: nat, b: nat, p: Pos)
    requires Rectangular(grid)
    requires a < b < |DirLights(grid, d, Lines(grid, d))|
    ensures var ls := DirLights(grid, d, Lines(grid, d)); !(p in ls[a].cells && p in ls[b].cells)
  {
    var ls := DirLights(grid, d, Lines(grid, d));
    LightsAreWellFormed(grid, d, Lines(grid, d));
    LightsInStartOrder(grid, d, Lines(grid, d));
    var la, lb := ls[a], ls[b];
    assert la in ls && lb in ls;
    assert StartsBefore(d, la, lb);
  }

  /** Every cell that opens a light in direction `d` has its light among the
      emitted ones. */
  lemma {:induction false} EveryStartOpensALight(grid: seq<seq<Slot>>, d: Dir, n: nat, i: nat, s: nat)
    requires Rectangular(grid) && i < n <= Lines(grid, d) && s < LineLength(grid, d)
    requires IsStart(At(grid, d, i, s), d)
    ensures FullLight(grid, d, i, s) in DirLights(grid, d, n)
  {
    if i < n - 1 {
      EveryStartOpensALight(grid, d, n - 1, i, s);
    } else {
      StartInLine(grid, d, i, s, LineLength(grid, d));
    }
  }

  lemma {:induction false} StartInLine(grid: seq<seq<Slot>>, d: Dir, i: nat, s: nat, j: nat)
    requires Rectangular(grid) && i < Lines(grid, d) && s < j <= LineLength(grid, d)
    requires IsStart(At(grid, d, i, s), d)
    ensures FullLight(grid, d, i, s) in LineLights(grid, d, i, j)
  {
    if s < j - 1 {
      StartInLine(grid, d, i, s, j - 1);
    }
  }
}

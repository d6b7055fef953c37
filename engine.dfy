/** The puzzle state of the crossword element: one `CellInfo` per cell with its
    contents and highlight, one `Light` per light with its ordered cells, and
    the `Crossword` that owns the lid-keyed light map, the cell map and the
    cursor, and that handles typing and backspacing. Listeners are
    identifiers; what a listener receives is recorded in a delivery log next
    to the emitter. The one listener the engine installs itself, a light's
    `cellChanged` registered on each of its cells, is `Forward(light)` and is
    executed: it re-emits the light's own `contentChanged`. */
module Engine {
  import opened Options
  import opened Events
  import opened Modular
  import opened Text

  /** `CellHighlight`; its `None` member is `NoHighlight` here. */
  datatype CellHighlight = NoHighlight | CurrentWord | CursorBefore | CursorAfter

  /** A `contentChanged` listener of a cell: an outside callback, or the
      `cellChanged` of a light the cell belongs to. */
  datatype CellListener = External(id: nat) | Forward(light: Light)

  /** The cursor: the lid string of the current light and an unbounded index. */
  datatype Cursor = Cursor(lid: string, index: int)

  class CellInfo {
    var contents: string
    var highlight: CellHighlight
    var contentListeners: seq<CellListener>
    var highlightListeners: seq<nat>
    var contentLog: seq<Delivery<CellListener, string>>
    var highlightLog: seq<Delivery<nat, CellHighlight>>

    constructor ()
      ensures contents == "" && highlight == NoHighlight
      ensures contentListeners == [] && highlightListeners == []
      ensures contentLog == [] && highlightLog == []
    {
      contents := "";
      highlight := NoHighlight;
      contentListeners := [];
      highlightListeners := [];
      contentLog := [];
      highlightLog := [];
    }

    /** `isPennedIn()`: the cell holds something. */
    predicate IsPennedIn()
      reads this
    {
      contents != ""
    }

    /** The lights whose `cellChanged` listens to this cell. */
    function Targets(): set<Light>
      reads this
    {
      set f | f in contentListeners && f.Forward? :: f.light
    }

    twostate predicate ContentsKept()
      reads this
    {
      contents == old(contents) && contentListeners == old(contentListeners) && contentLog == old(contentLog)
    }

    twostate predicate HighlightKept()
      reads this
    {
      highlight == old(highlight) && highlightListeners == old(highlightListeners) && highlightLog == old(highlightLog)
    }

    /** The `contents` setter: stores the value, then emits `contentChanged`. */
    method SetContents(v: string)
      modifies this, Targets()
      ensures contents == v && (IsPennedIn() <==> v != "")
      ensures contentListeners == old(contentListeners)
      ensures contentLog == old(contentLog) + Emit(contentListeners, v)
      ensures HighlightKept()
      ensures forall l | l in old(Targets()) :: l.Echoed(Echo(contentListeners, Forward(l), Emit(l.listeners, l)))
    {
      contents := v;
      EmitContentChanged(v);
    }

    /** `emit('contentChanged', v)`: every listener in order; each light
        listening re-emits its own `contentChanged` once per registration. */
    method EmitContentChanged(v: string)
      modifies this, Targets()
      ensures contents == old(contents) && contentListeners == old(contentListeners)
      ensures contentLog == old(contentLog) + Emit(contentListeners, v)
      ensures HighlightKept()
      ensures forall l | l in old(Targets()) :: l.Echoed(Echo(contentListeners, Forward(l), Emit(l.listeners, l)))
    {
      ghost var targets := Targets();
      var ls := contentListeners;
      var delivered := [];
      for k := 0 to |ls|
        invariant unchanged(this)
        invariant delivered == Emit(ls[..k], v)
        invariant forall l | l in targets :: l.Echoed(Echo(ls[..k], Forward(l), Emit(l.listeners, l)))
      {
        label head:
        var f := ls[k];
        if f.Forward? {
          f.light.CellChanged();
        }
        delivered := delivered + [Delivery(f, v)];
        EmitStep(ls, k, v);
        assert ls[..k + 1][..k] == ls[..k];
        forall l | l in targets
          ensures l.log == old(l.log) + Echo(ls[..k + 1], Forward(l), Emit(l.listeners, l))
        {
          var e := if f == Forward(l) then Emit(l.listeners, l) else [];
          assert l.log == old@head(l.log) + e;
          AppendAssoc(old(l.log), Echo(ls[..k], Forward(l), Emit(l.listeners, l)), e);
        }
      }
      assert ls[..|ls|] == ls;
      contentLog := contentLog + delivered;
    }

    /** The `highlight` setter: stores the value and emits `highlightChanged`. */
    method SetHighlight(h: CellHighlight)
      modifies this
      ensures highlight == h && highlightListeners == old(highlightListeners)
      ensures highlightLog == old(highlightLog) + Emit(highlightListeners, h)
      ensures ContentsKept()
    {
      highlight := h;
      highlightLog := highlightLog + Emit(highlightListeners, h);
    }

    /** `on('contentChanged', f)`. */
    method OnContentChanged(f: CellListener)
      modifies this
      ensures contentListeners == old(contentListeners) + [f]
      ensures contents == old(contents) && contentLog == old(contentLog) && HighlightKept()
    {
      contentListeners := contentListeners + [f];
    }

    /** `off('contentChanged', f)`. */
    method OffContentChanged(f: CellListener)
      modifies this
      ensures contentListeners == Off(old(contentListeners), f)
      ensures contents == old(contents) && contentLog == old(contentLog) && HighlightKept()
    {
      contentListeners := Off(contentListeners, f);
    }

    /** `on('highlightChanged', f)`. */
    method OnHighlightChanged(f: nat)
      modifies this
      ensures highlightListeners == old(highlightListeners) + [f]
      ensures highlight == old(highlight) && highlightLog == old(highlightLog) && ContentsKept()
    {
      highlightListeners := highlightListeners + [f];
    }

    /** `off('highlightChanged', f)`. */
    method OffHighlightChanged(f: nat)
      modifies this
      ensures highlightListeners == Off(old(highlightListeners), f)
      ensures highlight == old(highlight) && highlightLog == old(highlightLog) && ContentsKept()
    {
      highlightListeners := Off(highlightListeners, f);
    }
  }

  lemma EmitStep<L, P>(ls: seq<L>, k: nat, p: P)
    requires k < |ls|
    ensures Emit(ls[..k + 1], p) == Emit(ls[..k], p) + [Delivery(ls[k], p)]
  {
    assert ls[..k + 1][..k] == ls[..k];
  }

  lemma AppendAssoc<T>(a: seq<T>, b: seq<T>, c: seq<T>)
    ensures (a + b) + c == a + (b + c)
  {
  }

  class Light {
    var cellInfos: seq<CellInfo>
    /** The clue element attached to the light, by identifier. */
    var clue: Option<nat>
    var listeners: seq<nat>
    var log: seq<Delivery<nat, Light>>

    constructor ()
      ensures cellInfos == [] && clue == None && listeners == [] && log == []
    {
      cellInfos := [];
      clue := None;
      listeners := [];
      log := [];
    }

    /** Nothing changed but the log, which gained `extra`. */
    twostate predicate Echoed(new extra: seq<Delivery<nat, Light>>)
      reads this
    {
      && cellInfos == old(cellInfos) && clue == old(clue) && listeners == old(listeners)
      && log == old(log) + extra
    }

    /** `cellChanged`: re-emits `contentChanged` with the light itself. */
    method CellChanged()
      modifies this
      ensures Echoed(Emit(listeners, this))
    {
      log := log + Emit(listeners, this);
    }

    /** The `cellInfos` setter: stores the cells and registers this light's
        `cellChanged` on each of them, once per occurrence. Registrations
        made by an earlier call are not removed. */
    method SetCellInfos(cis: seq<CellInfo>)
      modifies this, set x | x in cis
      ensures cellInfos == cis && clue == old(clue) && listeners == old(listeners) && log == old(log)
      ensures forall x | x in cis ::
        && x.contentListeners == old(x.contentListeners) + Echo(cis, x, [Forward(this)])
        && x.contents == old(x.contents) && x.contentLog == old(x.contentLog) && x.HighlightKept()
    {
      cellInfos := cis;
      for k := 0 to |cis|
        invariant cellInfos == cis && clue == old(clue) && listeners == old(listeners) && log == old(log)
        invariant forall x | x in cis ::
          && x.contentListeners == old(x.contentListeners) + Echo(cis[..k], x, [Forward(this)])
          && x.contents == old(x.contents) && x.contentLog == old(x.contentLog) && x.HighlightKept()
      {
        label head:
        cis[k].OnContentChanged(Forward(this));
        assert cis[..k + 1][..k] == cis[..k];
        forall x | x in cis
          ensures x.contentListeners == old(x.contentListeners) + Echo(cis[..k + 1], x, [Forward(this)])
        {
          var e := if cis[k] == x then [Forward(this)] else [];
          assert x.contentListeners == old@head(x.contentListeners) + e;
          AppendAssoc(old(x.contentListeners), Echo(cis[..k], x, [Forward(this)]), e);
        }
      }
      assert cis[..|cis|] == cis;
    }

    /** `on('contentChanged', f)`. */
    method On(f: nat)
      modifies this
      ensures listeners == old(listeners) + [f]
      ensures cellInfos == old(cellInfos) && clue == old(clue) && log == old(log)
    {
      listeners := listeners + [f];
    }

    /** `off('contentChanged', f)`. */
    method Off(f: nat)
      modifies this
      ensures listeners == Events.Off(old(listeners), f)
      ensures cellInfos == old(cellInfos) && clue == old(clue) && log == old(log)
    {
      listeners := Events.Off(listeners, f);
    }
  }

  // ---------------------------------------------------------------------
  // The highlight pass run on `cursorMoved`.

  /** The highlight the pass gives to slot `i` of a light of `n` cells. */
  function HighlightAt(index: int, n: nat, i: nat): CellHighlight
    requires n > 0
  {
    if i == Mod(index, n) then CursorBefore
    else if i == Mod(index - 1, n) then CursorAfter
    else CurrentWord
  }

  /** One slot is CursorBefore, at `mod(index, n)`; when the light has at
      least two cells one slot is CursorAfter, at `mod(index - 1, n)`; every
      other slot is CurrentWord, and no slot is left without highlight. */
  lemma HighlightLayout(index: int, n: nat, i: nat)
    requires 0 < n && i < n
    ensures HighlightAt(index, n, i) == CursorBefore <==> i == Mod(index, n)
    ensures HighlightAt(index, n, i) == CursorAfter <==> n >= 2 && i == Mod(index - 1, n)
    ensures HighlightAt(index, n, i) == CurrentWord <==> i != Mod(index, n) && i != Mod(index - 1, n)
    ensures HighlightAt(index, n, i) != NoHighlight
  {
    if n >= 2 {
      ModPredecessor(index, n);
    }
  }

  /** The last place of `x` in `s`. */
  function LastIndex<T(==)>(s: seq<T>, x: T): (r: nat)
    requires x in s
    ensures r < |s| && s[r] == x
    ensures forall j :: r < j < |s| ==> s[j] != x
  {
    if s[|s| - 1] == x then |s| - 1 else LastIndex(s[..|s| - 1], x)
  }

  lemma LastIndexStep<T>(s: seq<T>, k: nat, x: T)
    requires k < |s|
    ensures s[k] == x ==> LastIndex(s[..k + 1], x) == k
    ensures s[k] != x && x in s[..k] ==> LastIndex(s[..k + 1], x) == LastIndex(s[..k], x)
  {
    assert s[..k + 1][..k] == s[..k];
  }

  /** Without repeated cells, each cell's last place is its only place. */
  lemma LastIndexOfDistinct<T>(s: seq<T>, i: nat)
    requires i < |s|
    requires forall a, b :: 0 <= a < b < |s| ==> s[a] != s[b]
    ensures LastIndex(s, s[i]) == i
  {
  }

  /** The `highlightChanged` deliveries cell `x` gets from the first `k`
      steps of the pass over `cis`, given its listeners `ls`. */
  function PassLog(cis: seq<CellInfo>, x: CellInfo, ls: seq<nat>, index: int, k: nat): seq<Delivery<nat, CellHighlight>>
    requires k <= |cis|
  {
    if k == 0 then []
    else PassLog(cis, x, ls, index, k - 1) + (if cis[k - 1] == x then Emit(ls, HighlightAt(index, |cis|, k - 1)) else [])
  }

  lemma {:induction false} PassLogAbsent(cis: seq<CellInfo>, x: CellInfo, ls: seq<nat>, index: int, k: nat)
    requires k <= |cis| && x !in cis[..k]
    ensures PassLog(cis, x, ls, index, k) == []
  {
    if k > 0 {
      assert cis[..k - 1] == cis[..k][..k - 1];
      assert cis[k - 1] in cis[..k];
      PassLogAbsent(cis, x, ls, index, k - 1);
    }
  }

  /** No cell outside the light hears anything from the pass. */
  lemma PassLogsOutside(cis: seq<CellInfo>, xs: set<CellInfo>, index: int)
    ensures forall x | x in xs && x !in cis :: PassLog(cis, x, x.highlightListeners, index, |cis|) == []
  {
    forall x | x in xs && x !in cis
      ensures PassLog(cis, x, x.highlightListeners, index, |cis|) == []
    {
      assert cis[..|cis|] == cis;
      PassLogAbsent(cis, x, x.highlightListeners, index, |cis|);
    }
  }

  /** After the pass over `cis` at `index`: each cell holds the highlight of
      its last place in the light and has heard one `highlightChanged` per
      place. */
  twostate predicate HighlightedFor(cis: seq<CellInfo>, index: int)
    reads set x | x in cis
  {
    forall x | x in cis ::
      && x.highlight == HighlightAt(index, |cis|, LastIndex(cis, x))
      && x.highlightLog == old(x.highlightLog) + PassLog(cis, x, x.highlightListeners, index, |cis|)
  }

  /** The `forEach` of the `cursorMoved` handler over a light's cells. */
  method HighlightCells(cis: seq<CellInfo>, index: int)
    modifies set x | x in cis
    ensures HighlightedFor(cis, index)
    ensures forall x | x in cis :: x.ContentsKept() && x.highlightListeners == old(x.highlightListeners)
  {
    for k := 0 to |cis|
      invariant forall x | x in cis ::
        && (x in cis[..k] ==> x.highlight == HighlightAt(index, |cis|, LastIndex(cis[..k], x)))
        && x.highlightLog == old(x.highlightLog) + PassLog(cis, x, x.highlightListeners, index, k)
        && x.ContentsKept() && x.highlightListeners == old(x.highlightListeners)
    {
      label head:
      cis[k].SetHighlight(HighlightAt(index, |cis|, k));
      forall x | x in cis
        ensures x in cis[..k + 1] ==> x.highlight == HighlightAt(index, |cis|, LastIndex(cis[..k + 1], x))
        ensures x.highlightLog == old(x.highlightLog) + PassLog(cis, x, x.highlightListeners, index, k + 1)
      {
        var e := if cis[k] == x then Emit(x.highlightListeners, HighlightAt(index, |cis|, k)) else [];
        assert x.highlightLog == old@head(x.highlightLog) + e;
        AppendAssoc(old(x.highlightLog), PassLog(cis, x, x.highlightListeners, index, k), e);
        LastIndexStep(cis, k, x);
        assert x in cis[..k + 1] && x != cis[k] ==> x in cis[..k] by {
          assert cis[..k + 1] == cis[..k] + [cis[k]];
        }
      }
    }
    assert cis[..|cis|] == cis;
  }

  /** The `forEach` of `setCursor` that resets the previous light's cells:
      each cell hears one `highlightChanged` per place it has in the light. */
  method ClearCells(cis: seq<CellInfo>)
    modifies set x | x in cis
    ensures forall x | x in cis ::
      && x.highlight == NoHighlight
      && x.highlightLog == old(x.highlightLog) + Echo(cis, x, Emit(x.highlightListeners, NoHighlight))
      && x.ContentsKept() && x.highlightListeners == old(x.highlightListeners)
  {
    for k := 0 to |cis|
      invariant forall x | x in cis ::
        && (x in cis[..k] ==> x.highlight == NoHighlight)
        && x.highlightLog == old(x.highlightLog) + Echo(cis[..k], x, Emit(x.highlightListeners, NoHighlight))
        && x.ContentsKept() && x.highlightListeners == old(x.highlightListeners)
    {
      label head:
      cis[k].SetHighlight(NoHighlight);
      assert cis[..k + 1][..k] == cis[..k];
      forall x | x in cis
        ensures x.highlightLog == old(x.highlightLog) + Echo(cis[..k + 1], x, Emit(x.highlightListeners, NoHighlight))
        ensures x in cis[..k + 1] ==> x.highlight == NoHighlight
      {
        var e := if cis[k] == x then Emit(x.highlightListeners, NoHighlight) else [];
        assert x.highlightLog == old@head(x.highlightLog) + e;
        AppendAssoc(old(x.highlightLog), Echo(cis[..k], x, Emit(x.highlightListeners, NoHighlight)), e);
        if x in cis[..k + 1] && x != cis[k] {
          assert cis[..k + 1] == cis[..k] + [cis[k]];
          assert x in cis[..k];
        }
      }
    }
    assert cis[..|cis|] == cis;
  }

  /** The index `setCursor` chooses when none is given: the first cell that
      is not penned in, or 0 when every cell is. */
  ghost predicate FirstEmptyChoice(cis: seq<CellInfo>, r: int)
    reads set x | x in cis
  {
    if exists j :: 0 <= j < |cis| && !cis[j].IsPennedIn() then
      0 <= r < |cis| && !cis[r].IsPennedIn() && forall j :: 0 <= j < r ==> cis[j].IsPennedIn()
    else r == 0
  }

  /** The choice is a single index, inside the light when it has cells. */
  lemma FirstEmptyChoiceUnique(cis: seq<CellInfo>, r: int, q: int)
    requires FirstEmptyChoice(cis, r) && FirstEmptyChoice(cis, q)
    ensures r == q
    ensures |cis| > 0 ==> 0 <= r < |cis|
  {
  }

  /** The choice depends on the cells' contents only. */
  twostate lemma FirstEmptyChoiceKept(cis: seq<CellInfo>)
    requires forall x | x in cis :: x.contents == old(x.contents)
    ensures forall r :: FirstEmptyChoice(cis, r) == old(FirstEmptyChoice(cis, r))
  {
    assert forall j | 0 <= j < |cis| :: cis[j].IsPennedIn() == old(cis[j].IsPennedIn());
  }

  /** The `for` loop of `setCursor` with its `break`. */
  method FirstEmptyIndex(cis: seq<CellInfo>) returns (index: int)
    ensures FirstEmptyChoice(cis, index)
  {
    index := 0;
    var i := 0;
    while i < |cis|
      invariant 0 <= i <= |cis|
      invariant forall j :: 0 <= j < i ==> cis[j].IsPennedIn()
    {
      if !cis[i].IsPennedIn() {
        index := i;
        return;
      }
      i := i + 1;
    }
  }

  datatype KeyOutcome =
    | Ignored   // not a key the handler reacts to, no cursor, or no such light
    | Handled   // a cell was written and the cursor moved (`preventDefault`)
    | Threw     // the light has no cells: `modIndex` yields undefined

  class Crossword<C(==)> {
    var lights: map<string, Light>
    var cells: map<C, CellInfo>
    var cursor: Option<Cursor>
    var cursorListeners: seq<nat>
    var cursorLog: seq<Delivery<nat, Cursor>>

    /** Every light's cells are registered cells, and every light a cell
        forwards to is a registered light. */
    ghost predicate Valid()
      reads this, cells.Values, lights.Values
    {
      && (forall l | l in lights.Values :: forall x | x in l.cellInfos :: x in cells.Values)
      && (forall x | x in cells.Values :: x.Targets() <= lights.Values)
    }

    /** Each lid has a light of its own: only `getOrAddLight` stores lights,
        and it stores new ones. */
    ghost predicate OwnLights()
      reads this
    {
      forall a, b | a in lights && b in lights && a != b :: lights[a] != lights[b]
    }

    constructor ()
      ensures Valid() && OwnLights()
      ensures lights == map[] && cells == map[] && cursor == None
      ensures cursorListeners == [] && cursorLog == []
    {
      lights := map[];
      cells := map[];
      cursor := None;
      cursorListeners := [];
      cursorLog := [];
    }

    /** `getLight(lid)`: the light stored under the lid's string. */
    function GetLight(lid: string): (r: Option<Light>)
      reads this
      ensures r.Some? <==> lid in lights
      ensures r.Some? ==> r.value == lights[lid]
    {
      if lid in lights then Some(lights[lid]) else None
    }

    /** `getOrAddLight(lid)`: the stored light, or a new empty one that is
        stored first. */
    method GetOrAddLight(lid: string) returns (light: Light)
      requires Valid()
      modifies this
      ensures Valid()
      ensures old(OwnLights()) ==> OwnLights()
      ensures lid in old(lights) ==> light == old(lights)[lid] && lights == old(lights)
      ensures lid !in old(lights) ==>
        && fresh(light) && lights == old(lights)[lid := light]
        && light.cellInfos == [] && light.clue == None && light.listeners == [] && light.log == []
      ensures cells == old(cells) && cursor == old(cursor)
      ensures cursorListeners == old(cursorListeners) && cursorLog == old(cursorLog)
    {
      var found := GetLight(lid);
      if found.Some? {
        light := found.value;
      } else {
        light := new Light();
        lights := lights[lid := light];
        forall v | v in old(lights).Values
          ensures v in lights.Values
        {
          var k :| k in old(lights) && old(lights)[k] == v;
          assert lights[k] == v;
        }
      }
    }

    /** `getOrAddCell(cell)`: the stored CellInfo, or a new empty one that is
        stored first. */
    method GetOrAddCell(cell: C) returns (info: CellInfo)
      requires Valid()
      modifies this
      ensures Valid()
      ensures cell in old(cells) ==> info == old(cells)[cell] && cells == old(cells)
      ensures cell !in old(cells) ==>
        && fresh(info) && cells == old(cells)[cell := info]
        && info.contents == "" && info.highlight == NoHighlight
        && info.contentListeners == [] && info.highlightListeners == []
        && info.contentLog == [] && info.highlightLog == []
      ensures lights == old(lights) && cursor == old(cursor)
      ensures cursorListeners == old(cursorListeners) && cursorLog == old(cursorLog)
    {
      if cell in cells {
        info := cells[cell];
      } else {
        info := new CellInfo();
        cells := cells[cell := info];
        forall v | v in old(cells).Values
          ensures v in cells.Values
        {
          var k :| k in old(cells) && old(cells)[k] == v;
          assert cells[k] == v;
        }
      }
    }

    /** `cells.map(getOrAddCell)`: the CellInfo of each handle, in order;
        handles not yet registered get a new empty CellInfo. */
    method CollectCells(handles: seq<C>) returns (cis: seq<CellInfo>)
      requires Valid()
      modifies this
      ensures Valid()
      ensures lights == old(lights) && cursor == old(cursor)
      ensures cursorListeners == old(cursorListeners) && cursorLog == old(cursorLog)
      ensures cells.Keys == old(cells).Keys + set h | h in handles
      ensures forall h | h in old(cells) :: cells[h] == old(cells)[h]
      ensures forall h | h in cells && h !in old(cells) ::
        fresh(cells[h]) && cells[h].contents == "" && cells[h].highlight == NoHighlight && cells[h].contentListeners == []
      ensures |cis| == |handles| && forall i :: 0 <= i < |handles| ==> cis[i] == cells[handles[i]]
    {
      cis := [];
      for i := 0 to |handles|
        invariant Valid()
        invariant lights == old(lights) && cursor == old(cursor)
        invariant cursorListeners == old(cursorListeners) && cursorLog == old(cursorLog)
        invariant forall h | h in cells :: h in old(cells) || h in handles[..i]
        invariant forall h | h in old(cells) :: h in cells && cells[h] == old(cells)[h]
        invariant forall h | h in cells && h !in old(cells) ::
          fresh(cells[h]) && cells[h].contents == "" && cells[h].highlight == NoHighlight && cells[h].contentListeners == []
        invariant |cis| == i && forall j :: 0 <= j < i ==> handles[j] in cells && cis[j] == cells[handles[j]]
      {
        var info := GetOrAddCell(handles[i]);
        assert handles[..i + 1] == handles[..i] + [handles[i]];
        cis := cis + [info];
      }
      assert handles[..|handles|] == handles;
      forall h | h in handles
        ensures h in cells
      {
        var j :| 0 <= j < |handles| && handles[j] == h;
      }
    }

    /** `setCellsForLight(lid, cells)`: the light (created if needed) gets the
        CellInfos of the handles in order, each created if needed, and
        listens to each of them once per occurrence. */
    method SetCellsForLight(lid: string, handles: seq<C>)
      requires Valid()
      modifies this, cells.Values, lights.Values
      ensures Valid()
      ensures old(OwnLights()) ==> OwnLights()
      ensures lid in lights && lights.Keys == old(lights).Keys + {lid}
      ensures forall k | k in old(lights) :: lights[k] == old(lights)[k]
      ensures lid !in old(lights) ==>
        fresh(lights[lid]) && lights[lid].listeners == [] && lights[lid].clue == None && lights[lid].log == []
      ensures lid in old(lights) ==>
        && lights[lid].listeners == old(lights[lid].listeners) && lights[lid].clue == old(lights[lid].clue)
        && lights[lid].log == old(lights[lid].log)
      ensures forall l | l in old(lights).Values && l != lights[lid] ::
        l.cellInfos == old(l.cellInfos) && l.clue == old(l.clue) && l.listeners == old(l.listeners) && l.log == old(l.log)
      ensures cells.Keys == old(cells).Keys + set h | h in handles
      ensures forall h | h in old(cells) :: cells[h] == old(cells)[h]
      ensures forall x | x in old(cells).Values ::
        x.contents == old(x.contents) && x.contentLog == old(x.contentLog) && x.HighlightKept()
      ensures forall h | h in cells && h !in old(cells) ::
        fresh(cells[h]) && cells[h].contents == "" && cells[h].highlight == NoHighlight
      ensures |lights[lid].cellInfos| == |handles|
      ensures forall i :: 0 <= i < |handles| ==> lights[lid].cellInfos[i] == cells[handles[i]]
      ensures forall x | x in old(cells).Values ::
        x.contentListeners == old(x.contentListeners) + Echo(lights[lid].cellInfos, x, [Forward(lights[lid])])
      ensures forall h | h in cells && h !in old(cells) ::
        cells[h].contentListeners == Echo(lights[lid].cellInfos, cells[h], [Forward(lights[lid])])
      ensures cursor == old(cursor) && cursorListeners == old(cursorListeners) && cursorLog == old(cursorLog)
    {
      var light, cis := Gather(lid, handles);
      Attach(light, cis);
    }

    /** The lookups of `setCellsForLight`: `getOrAddLight(lid)`, then
        `getOrAddCell` on each handle in order. */
    method Gather(lid: string, handles: seq<C>) returns (light: Light, cis: seq<CellInfo>)
      requires Valid()
      modifies this
      ensures Valid()
      ensures old(OwnLights()) ==> OwnLights()
      ensures lid in lights && lights[lid] == light && lights.Keys == old(lights).Keys + {lid}
      ensures forall k | k in old(lights) :: lights[k] == old(lights)[k]
      ensures lid !in old(lights) ==> fresh(light) && light.listeners == [] && light.clue == None && light.log == []
      ensures cells.Keys == old(cells).Keys + set h | h in handles
      ensures forall h | h in old(cells) :: cells[h] == old(cells)[h]
      ensures forall h | h in cells && h !in old(cells) ::
        fresh(cells[h]) && cells[h].contentListeners == [] && cells[h].contents == "" && cells[h].highlight == NoHighlight
      ensures |cis| == |handles| && forall i :: 0 <= i < |handles| ==> cis[i] == cells[handles[i]]
      ensures forall x | x in cis :: x in cells.Values
      ensures cursor == old(cursor) && cursorListeners == old(cursorListeners) && cursorLog == old(cursorLog)
    {
      light := GetOrAddLight(lid);
      cis := CollectCells(handles);
      forall x | x in cis
        ensures x in cells.Values
      {
        var i :| 0 <= i < |cis| && cis[i] == x;
        assert handles[i] in cells;
      }
    }

    /** The `light.cellInfos = ...` assignment of `setCellsForLight`: the
        light's new cells are registered cells, and each of them forwards to
        the light from now on. */
    method Attach(light: Light, cis: seq<CellInfo>)
      requires Valid() && light in lights.Values
      requires forall x | x in cis :: x in cells.Values
      modifies light, cells.Values
      ensures Valid()
      ensures light.cellInfos == cis && light.clue == old(light.clue) && light.listeners == old(light.listeners)
      ensures light.log == old(light.log)
      ensures forall x | x in cells.Values ::
        x.contentListeners == old(x.contentListeners) + Echo(cis, x, [Forward(light)])
      ensures forall x | x in cells.Values ::
        x.contents == old(x.contents) && x.contentLog == old(x.contentLog) && x.HighlightKept()
    {
      light.SetCellInfos(cis);
      forall x | x in cells.Values
        ensures x.contentListeners == old(x.contentListeners) + Echo(cis, x, [Forward(light)])
        ensures x.Targets() <= lights.Values
      {
        if x !in cis {
          EchoAbsent(cis, x, [Forward(light)]);
        }
        forall l | l in x.Targets()
          ensures l in lights.Values
        {
          var f :| f in x.contentListeners && f.Forward? && f.light == l;
          if f !in old(x.contentListeners) {
            EchoWithin(cis, x, [Forward(light)]);
            assert f == Forward(light);
          } else {
            assert l in old(x.Targets());
          }
        }
      }
    }

    /** `setClueForLight(lid, clue)`. */
    method SetClueForLight(lid: string, clue: nat)
      requires Valid()
      modifies this, lights.Values
      ensures Valid()
      ensures old(OwnLights()) ==> OwnLights()
      ensures lid in lights && lights.Keys == old(lights).Keys + {lid}
      ensures forall k | k in old(lights) :: lights[k] == old(lights)[k]
      ensures lights[lid].clue == Some(clue)
      ensures lid in old(lights) ==>
        && lights[lid].cellInfos == old(lights[lid].cellInfos)
        && lights[lid].listeners == old(lights[lid].listeners) && lights[lid].log == old(lights[lid].log)
      ensures lid !in old(lights) ==>
        fresh(lights[lid]) && lights[lid].cellInfos == [] && lights[lid].listeners == [] && lights[lid].log == []
      ensures forall l | l in old(lights).Values && l != lights[lid] ::
        l.cellInfos == old(l.cellInfos) && l.clue == old(l.clue) && l.listeners == old(l.listeners) && l.log == old(l.log)
      ensures cells == old(cells) && cursor == old(cursor)
      ensures cursorListeners == old(cursorListeners) && cursorLog == old(cursorLog)
    {
      var light := GetOrAddLight(lid);
      light.clue := Some(clue);
    }

    /** `on('cursorMoved', f)`. The handler installed by the constructor is
        an anonymous function that cannot be passed to `off`; it runs before
        every listener added here. */
    method On(f: nat)
      modifies this
      ensures cursorListeners == old(cursorListeners) + [f]
      ensures lights == old(lights) && cells == old(cells) && cursor == old(cursor) && cursorLog == old(cursorLog)
    {
      cursorListeners := cursorListeners + [f];
    }

    /** `off('cursorMoved', f)`. */
    method Off(f: nat)
      modifies this
      ensures cursorListeners == Events.Off(old(cursorListeners), f)
      ensures lights == old(lights) && cells == old(cells) && cursor == old(cursor) && cursorLog == old(cursorLog)
    {
      cursorListeners := Events.Off(cursorListeners, f);
    }

    /** Stores the cursor `c` and emits `cursorMoved` with it: the
        constructor's handler highlights the cursor's light, if there is one;
        then every added listener receives the cursor. */
    method MoveCursor(c: Cursor)
      requires Valid()
      modifies this, cells.Values
      ensures Valid()
      ensures lights == old(lights) && cells == old(cells) && cursor == Some(c)
      ensures cursorListeners == old(cursorListeners)
      ensures cursorLog == old(cursorLog) + Emit(cursorListeners, c)
      ensures forall x | x in cells.Values :: x.ContentsKept() && x.highlightListeners == old(x.highlightListeners)
      ensures c.lid in lights ==> HighlightedFor(lights[c.lid].cellInfos, c.index)
      ensures forall x | x in cells.Values && (c.lid !in lights || x !in lights[c.lid].cellInfos) ::
        x.HighlightKept()
    {
      cursor := Some(c);
      var found := GetLight(c.lid);
      if found.Some? {
        HighlightCells(found.value.cellInfos, c.index);
      }
      cursorLog := cursorLog + Emit(cursorListeners, c);
    }

    /** The `keydown` handler. `Backspace` clears the cell before the cursor,
        at `mod(index - 1, n)`, and moves the index down by one; any other key
        of one character writes its upper case into the cell at the cursor,
        at `mod(index, n)`, and moves the index up by one. The index is not
        wrapped. Both then emit `cursorMoved`. */
    method KeyDown(key: string) returns (outcome: KeyOutcome)
      requires Valid()
      modifies this, cells.Values, lights.Values
      ensures Valid()
      ensures lights == old(lights) && cells == old(cells) && cursorListeners == old(cursorListeners)
      ensures outcome == Ignored <==>
        (key != "Backspace" && Utf16Length(key) != 1) || old(cursor).None? || old(cursor).value.lid !in lights
      ensures outcome == Threw <==> outcome != Ignored && |lights[old(cursor).value.lid].cellInfos| == 0
      ensures forall l | l in lights.Values :: l.cellInfos == old(l.cellInfos)
      ensures forall x | x in cells.Values ::
        x.contentListeners == old(x.contentListeners) && x.highlightListeners == old(x.highlightListeners)
      ensures outcome != Handled ==>
        && cursor == old(cursor) && cursorLog == old(cursorLog)
        && (forall x | x in cells.Values :: x.ContentsKept() && x.HighlightKept())
        && (forall l | l in lights.Values :: l.Echoed([]))
      ensures outcome == Handled ==>
        var c := old(cursor).value;
        var cis := lights[c.lid].cellInfos;
        var typed := key != "Backspace";
        var target := cis[if typed then Mod(c.index, |cis|) else Mod(c.index - 1, |cis|)];
        && cursor == Some(Cursor(c.lid, if typed then c.index + 1 else c.index - 1))
        && target.contents == (if typed then Upper(key) else "")
        && target.contentLog == old(target.contentLog) + Emit(target.contentListeners, target.contents)
        && (forall x | x in cells.Values && x != target :: x.ContentsKept())
        && (forall l | l in lights.Values :: l.Echoed(Echo(target.contentListeners, Forward(l), Emit(l.listeners, l))))
        && HighlightedFor(cis, cursor.value.index)
        && (forall x | x in cells.Values && x !in cis :: x.HighlightKept())
        && cursorLog == old(cursorLog) + Emit(cursorListeners, cursor.value)
    {
      if key == "Backspace" {
        if cursor.None? {
          return Ignored;
        }
        var found := GetLight(cursor.value.lid);
        if found.None? {
          return Ignored;
        }
        if |found.value.cellInfos| == 0 {
          return Threw;
        }
        Step(found.value, cursor.value.index - 1, "", cursor.value.index - 1);
        outcome := Handled;
      } else if Utf16Length(key) == 1 {
        if cursor.None? {
          return Ignored;
        }
        var found := GetLight(cursor.value.lid);
        if found.None? {
          return Ignored;
        }
        if |found.value.cellInfos| == 0 {
          return Threw;
        }
        Step(found.value, cursor.value.index, Upper(key), cursor.value.index + 1);
        outcome := Handled;
      } else {
        outcome := Ignored;
      }
    }

    /** A one-character key followed by `Backspace`: the cursor is back where
        it was and the cell just written is empty again, while every other
        cell keeps its contents. A first key that is not handled leaves
        nothing changed, so the second ends the same way. */
    method TypeThenErase(key: string) returns (typed: KeyOutcome, erased: KeyOutcome)
      requires Valid() && Utf16Length(key) == 1
      modifies this, cells.Values, lights.Values
      ensures Valid()
      ensures lights == old(lights) && cells == old(cells)
      ensures forall l | l in lights.Values :: l.cellInfos == old(l.cellInfos)
      ensures typed == Handled <==>
        old(cursor).Some? && old(cursor).value.lid in lights && |lights[old(cursor).value.lid].cellInfos| > 0
      ensures typed != Handled ==> erased == typed && cursor == old(cursor)
      ensures typed == Handled ==>
        var c := old(cursor).value;
        var cis := lights[c.lid].cellInfos;
        && erased == Handled && cursor == old(cursor)
        && cis[Mod(c.index, |cis|)].contents == ""
        && forall x | x in cells.Values && x != cis[Mod(c.index, |cis|)] :: x.contents == old(x.contents)
    {
      typed := KeyDown(key);
      erased := KeyDown("Backspace");
    }

    /** `cellInfo.contents = value` inside the handler: the cell's setter
        runs, and the lights listening to the cell re-emit. */
    method WriteCell(target: CellInfo, value: string)
      requires Valid() && target in cells.Values
      modifies cells.Values, lights.Values
      ensures Valid()
      ensures target.contents == value
      ensures target.contentLog == old(target.contentLog) + Emit(target.contentListeners, value)
      ensures forall x | x in cells.Values ::
        && x.contentListeners == old(x.contentListeners) && x.HighlightKept()
        && (x != target ==> x.ContentsKept())
      ensures forall l | l in lights.Values :: l.Echoed(Echo(target.contentListeners, Forward(l), Emit(l.listeners, l)))
    {
      target.SetContents(value);
      forall l | l in lights.Values
        ensures l.Echoed(Echo(target.contentListeners, Forward(l), Emit(l.listeners, l)))
      {
        if l !in old(target.Targets()) {
          assert Forward(l) !in target.contentListeners;
          EchoAbsent(target.contentListeners, Forward(l), Emit(l.listeners, l));
        }
      }
    }

    /** The common tail of both branches of the handler, once the light is
        known to have cells: write `value` into the cell at `mod(at, n)`, set
        the index to `index` and emit. */
    method Step(light: Light, at: int, value: string, index: int)
      requires Valid() && cursor.Some? && cursor.value.lid in lights && light == lights[cursor.value.lid]
      requires |light.cellInfos| > 0
      modifies this, cells.Values, lights.Values
      ensures Valid()
      ensures lights == old(lights) && cells == old(cells) && cursorListeners == old(cursorListeners)
      ensures forall l | l in lights.Values :: l.cellInfos == old(l.cellInfos)
      ensures forall x | x in cells.Values ::
        x.contentListeners == old(x.contentListeners) && x.highlightListeners == old(x.highlightListeners)
      ensures
        var cis := light.cellInfos;
        var target := cis[Mod(at, |cis|)];
        && cursor == Some(Cursor(old(cursor).value.lid, index))
        && target.contents == value
        && target.contentLog == old(target.contentLog) + Emit(target.contentListeners, value)
        && (forall x | x in cells.Values && x != target :: x.ContentsKept())
        && (forall l | l in lights.Values :: l.Echoed(Echo(target.contentListeners, Forward(l), Emit(l.listeners, l))))
        && HighlightedFor(cis, index)
        && (forall x | x in cells.Values && x !in cis :: x.HighlightKept())
        && cursorLog == old(cursorLog) + Emit(cursorListeners, cursor.value)
    {
      var target := ModIndex(light.cellInfos, at);
      WriteCell(target, value);
      MoveCursor(Cursor(cursor.value.lid, index));
    }

    /** The cells of the light under the cursor, if any. */
    function CursorCells(): (r: seq<CellInfo>)
      requires Valid()
      reads this, cells.Values, lights.Values
      ensures forall x | x in r :: x in cells.Values
      ensures cursor.Some? && cursor.value.lid in lights ==> r == lights[cursor.value.lid].cellInfos
    {
      if cursor.Some? && cursor.value.lid in lights then lights[cursor.value.lid].cellInfos else []
    }

    /** With no cursor, or a cursor whose light is gone, `setCursor` resets
        nothing. */
    lemma NoPreviousCells()
      requires Valid()
      ensures cursor.None? || cursor.value.lid !in lights ==> CursorCells() == []
    {
    }

    /** The first statement of `setCursor`: the cells of the previous light
        lose their highlight. */
    method ClearPrevious()
      requires Valid()
      modifies cells.Values
      ensures Valid()
      ensures forall x | x in cells.Values ::
        && x.ContentsKept() && x.highlightListeners == old(x.highlightListeners)
        && x.highlight == (if x in old(CursorCells()) then NoHighlight else old(x.highlight))
        && x.highlightLog == old(x.highlightLog) + Echo(old(CursorCells()), x, Emit(x.highlightListeners, NoHighlight))
    {
      var previous := CursorCells();
      ClearCells(previous);
      forall x | x in cells.Values && x !in previous
        ensures x.highlightLog == old(x.highlightLog) + Echo(previous, x, Emit(x.highlightListeners, NoHighlight))
      {
        EchoAbsent(previous, x, Emit(x.highlightListeners, NoHighlight));
      }
    }

    /** The rest of `setCursor`, after the reset: fails when no light has
        this lid, otherwise moves the cursor to the given index, or to the
        first cell not penned in, and emits `cursorMoved`. */
    method Activate(lid: string, index: Option<int>) returns (threw: bool)
      requires Valid()
      modifies this, cells.Values
      ensures Valid()
      ensures lights == old(lights) && cells == old(cells) && cursorListeners == old(cursorListeners)
      ensures threw <==> lid !in lights
      ensures forall x | x in cells.Values :: x.ContentsKept() && x.highlightListeners == old(x.highlightListeners)
      ensures threw ==>
        && cursor == old(cursor) && cursorLog == old(cursorLog)
        && forall x | x in cells.Values :: x.HighlightKept()
      ensures !threw ==>
        && cursor.Some? && cursor.value.lid == lid
        && (index.Some? ==> cursor.value.index == index.value)
        && (index.None? ==> var at := cursor.value.index; old(FirstEmptyChoice(lights[lid].cellInfos, at)))
        && cursorLog == old(cursorLog) + Emit(cursorListeners, cursor.value)
        && HighlightedFor(lights[lid].cellInfos, cursor.value.index)
        && forall x | x in cells.Values && x !in lights[lid].cellInfos :: x.HighlightKept()
    {
      var found := GetLight(lid);
      if found.None? {
        return true;
      }
      var light := found.value;
      var at: int;
      if index.None? {
        at := FirstEmptyIndex(light.cellInfos);
      } else {
        at := index.value;
      }
      MoveCursor(Cursor(lid, at));
      threw := false;
    }

    /** `setCursor(lid, index?)`: resets the highlight of the previous light's
        cells, fails when no light has this lid, otherwise moves the cursor
        to the given index, or to the first cell not penned in, and emits
        `cursorMoved`. A cell of both lights ends with the new light's
        highlight; its log holds the reset, then the pass. */
    method SetCursor(lid: string, index: Option<int>) returns (threw: bool)
      requires Valid()
      modifies this, cells.Values
      ensures Valid()
      ensures lights == old(lights) && cells == old(cells) && cursorListeners == old(cursorListeners)
      ensures threw <==> lid !in lights
      ensures forall x | x in cells.Values :: x.ContentsKept() && x.highlightListeners == old(x.highlightListeners)
      ensures threw ==> cursor == old(cursor) && cursorLog == old(cursorLog)
      ensures threw ==> forall x | x in cells.Values ::
        && x.highlight == (if x in old(CursorCells()) then NoHighlight else old(x.highlight))
        && x.highlightLog == old(x.highlightLog) + Echo(old(CursorCells()), x, Emit(x.highlightListeners, NoHighlight))
      ensures !threw ==>
        && cursor.Some? && cursor.value.lid == lid
        && (index.Some? ==> cursor.value.index == index.value)
        && (index.None? ==> var at := cursor.value.index; old(FirstEmptyChoice(lights[lid].cellInfos, at)))
        && cursorLog == old(cursorLog) + Emit(cursorListeners, cursor.value)
      ensures !threw ==> forall x | x in lights[lid].cellInfos ::
        x.highlight == HighlightAt(cursor.value.index, |lights[lid].cellInfos|, LastIndex(lights[lid].cellInfos, x))
      ensures !threw ==> forall x | x in cells.Values && x !in lights[lid].cellInfos ::
        x.highlight == (if x in old(CursorCells()) then NoHighlight else old(x.highlight))
      ensures !threw ==> forall x | x in cells.Values ::
        x.highlightLog == old(x.highlightLog)
                          + Echo(old(CursorCells()), x, Emit(x.highlightListeners, NoHighlight))
                          + PassLog(lights[lid].cellInfos, x, x.highlightListeners, cursor.value.index, |lights[lid].cellInfos|)
    {
      ClearPrevious();
      if lid in lights {
        FirstEmptyChoiceKept(lights[lid].cellInfos);
      }
      threw := Activate(lid, index);
      if !threw {
        PassLogsOutside(lights[lid].cellInfos, cells.Values, cursor.value.index);
      }
    }
  }
}

/** The reference element: shows the pattern of a light, one character per
    cell with `_` for a cell not yet filled, and keeps it current by
    listening to the light's `contentChanged`. */
module Ref {
  import opened Options
  import opened Events
  import opened Engine

  /** What one cell contributes to the pattern. */
  function Piece(contents: string): (r: string)
    ensures contents == "" ==> r == "_"
    ensures contents != "" ==> r == contents
  {
    if contents == "" then "_" else contents
  }

  /** `updateInner`: the cells' pieces, in light order, joined with no
      separator. */
  function Render(contents: seq<string>): (r: string)
    ensures |r| >= |contents|
  {
    if contents == [] then "" else Render(contents[..|contents| - 1]) + Piece(contents[|contents| - 1])
  }

  /** Rendering distributes over the concatenation of two runs of cells. */
  lemma {:induction false} RenderAppend(a: seq<string>, b: seq<string>)
    ensures Render(a + b) == Render(a) + Render(b)
  {
    if b == [] {
      assert a + b == a;
    } else {
      var init := b[..|b| - 1];
      assert (a + b)[..|a + b| - 1] == a + init;
      RenderAppend(a, init);
    }
  }

  /** Every cell holds at most one character, as typing leaves it. */
  predicate SingleChars(contents: seq<string>) {
    forall i :: 0 <= i < |contents| ==> |contents[i]| <= 1
  }

  /** The character cell `i` shows. */
  function Shown(contents: seq<string>, i: nat): char
    requires i < |contents| && |contents[i]| <= 1
  {
    if contents[i] == "" then '_' else contents[i][0]
  }

  /** With one character at most per cell, the pattern has one character
      per cell, and character `i` is `_` exactly when cell `i` is empty. */
  lemma {:induction false} RenderPositional(contents: seq<string>)
    requires SingleChars(contents)
    ensures |Render(contents)| == |contents|
    ensures forall i :: 0 <= i < |contents| ==> Render(contents)[i] == Shown(contents, i)
  {
    if contents != [] {
      var init := contents[..|contents| - 1];
      RenderPositional(init);
      assert forall i :: 0 <= i < |init| ==> Shown(init, i) == Shown(contents, i);
    }
  }

  /** The contents of a light's cells, in light order. */
  function ContentsOf(cis: seq<CellInfo>): (r: seq<string>)
    reads set x | x in cis
    ensures |r| == |cis|
    ensures forall i :: 0 <= i < |cis| ==> r[i] == cis[i].contents
  {
    if cis == [] then [] else ContentsOf(cis[..|cis| - 1]) + [cis[|cis| - 1].contents]
  }

  /** `connectedCallback` of the reference element, without the click
      handler: the light under the `light` attribute (absent or empty: the
      key `""`) is rendered and subscribed to with `listener`; an unknown key
      renders nothing and subscribes nothing. */
  method ConnectRef<C(==)>(cw: Crossword<C>, attribute: Option<string>, listener: nat) returns (text: Option<string>)
    modifies cw.lights.Values
    ensures text.Some? <==> attribute.GetOr("") in cw.lights
    ensures text.Some? ==>
      var light := cw.lights[attribute.GetOr("")];
      && text.value == Render(ContentsOf(light.cellInfos))
      && light.listeners == old(light.listeners) + [listener]
      && light.cellInfos == old(light.cellInfos) && light.clue == old(light.clue) && light.log == old(light.log)
    ensures forall l | l in cw.lights.Values && (text.None? || l != cw.lights[attribute.GetOr("")]) ::
      l.listeners == old(l.listeners) && l.cellInfos == old(l.cellInfos) && l.clue == old(l.clue) && l.log == old(l.log)
  {
    var key := attribute.GetOr("");
    if key !in cw.lights {
      return None;
    }
    var light := cw.lights[key];
    text := Some(Render(ContentsOf(light.cellInfos)));
    light.On(listener);
  }

  /** Once subscribed, the reference element hears every `contentChanged`
      the light emits, so its text is recomputed on each of them. */
  lemma SubscribedHears(ls: seq<nat>, listener: nat, light: Light)
    requires listener in ls
    ensures Delivery(listener, light) in Emit(ls, light)
  {
    var i :| 0 <= i < |ls| && ls[i] == listener;
    assert Emit(ls, light)[i] == Delivery(listener, light);
  }
}

# kreuzwort puzzle engine in Dafny

A model of the engine behind the kreuzwort crossword web component, without
its DOM shell. It covers five parts:

- **Light scanner** (`Grid`). It turns a rectangular grid of slots into
  lights. A slot is a cell, a block or any other element; a cell has optional
  `across`/`down` markers and an optional number. The scanner emits
  `(lid, cells)` pairs, and the registration loop (`GridConnect`) hands them
  to the crossword.
- **Engine state** (`Engine`). `CellInfo` holds one cell's contents,
  highlight and listeners. `Light` holds its ordered cells, clue and
  listeners. `Crossword` holds the lid-keyed light map, the cell map and the
  cursor. It implements:
  - get-or-create of lights and cells;
  - `setCellsForLight`;
  - `setCursor`, including the first-empty-cell choice;
  - the `keydown` handler (typing and Backspace);
  - the highlight pass run on `cursorMoved`.
- **Index arithmetic** (`Modular`): JavaScript's truncating `%`, and the
  non-negative `mod` built on it.
- **Light identifiers** (`Lids`, `LidMaps`): the `Lid` class and the
  lid-keyed `LidMap` with its lazy default factory.
- **Box clues and reference elements** (`BoxClue`, `Ref`).

Modelling choices:

- **Lids.** The engine keys lights by the canonical string `start-type`.
- **Listeners.** A listener is an identifier. Every emitter keeps a log of
  the deliveries it makes.
- **Cell forwarding.** Each light registers its `cellChanged` on its cells.
  That listener is `Forward(light)`, and it is executed: writing a cell
  re-emits `contentChanged` on every light listening to it, once per
  registration.
- **Cell handles.** The scanner identifies a cell by its grid position.
- **Exceptions** become outcomes:
  - `KeyOutcome.Threw` for a keystroke on a light with no cells, where
    `modIndex` yields undefined and the write fails;
  - `threw` of `SetCursor` when no light has the lid;
  - `BoxOutcome.NoLight` when a box clue's target lid has no light.

Behaviour of the code that the model keeps as it is:

- The cursor index is never wrapped. Typing adds 1 and Backspace subtracts 1,
  so the index can run past the light's length or go negative; only the cell
  choice goes through `mod`.
- `setCursor` with an unknown lid throws an explicit Error when `getLight`
  finds no light. By then it has already reset the previous light's
  highlight.
- A box clue whose target lid has no light throws when it is connected,
  because `setLight` writes `clue` on undefined.
- A keystroke on a light with no cells throws, because `modIndex` yields
  undefined and its `contents` is written.
- A key counts as one character when its UTF-16 `length` is 1, so a
  character outside the Basic Multilingual Plane (an emoji) is ignored.

## Model

| member | source | states |
|---|---|---|
| Modular.JsRem | src/Crossword.ts:113 | JavaScript's `%`: the result lies strictly between `-m` and `m` and has the sign of the dividend |
| Modular.JsRemTruncates | src/Crossword.ts:113 | `a` is the quotient truncated toward zero times `m`, plus `JsRem(a, m)`, so `JsRem` is the remainder of truncated division |
| Modular.Mod | src/Crossword.ts:112-114 | `mod(a, m)` lies in `[0, m)` for every integer `a` |
| Modular.ModIsEuclidean | src/Crossword.ts:112-114 | `mod(a, m)` equals Dafny's Euclidean `a % m` for negative `a` too, so it is congruent to `a` modulo `m` |
| Modular.ModPredecessor | src/Crossword.ts:160-163 | the predecessor slot `mod(a - 1, m)` is one below `mod(a, m)`, wrapping from 0 to `m - 1`; with two or more cells the two slots differ |
| Modular.ModIndex | src/Crossword.ts:116-118 | `modIndex` returns the element at `mod(index, length)` and that element is in the array |
| Events.Off | src/Crossword.ts:38-40 | `off(fn)` removes every occurrence of `fn`, keeps how often every other listener occurs, adds nothing, and shortens the list by the number of removed occurrences |
| Events.OffAppend | src/Crossword.ts:38-40 | `off` distributes over concatenation, so surviving listeners keep their registration order |
| Events.OffAfterOn | src/Crossword.ts:35-40 | `on` followed by `off` of the same function gives what `off` alone gives, and the original list when the function was not registered |
| Events.Emit | src/Crossword.ts:41-45 | `emit` makes one delivery per listener, in registration order, each with the emitted payload |
| Events.EmitOrder | src/Crossword.ts:35-45 | a listener added by `on` is called after all earlier ones; a listener removed by `off` is never called |
| Events.EchoIsRepeat | src/Crossword.ts:79-88 | a light registered `k` times on a cell re-emits exactly `k` times when the cell changes |
| Events.EchoAbsent | src/Crossword.ts:79-88 | a light not listening to a cell re-emits nothing when the cell changes |
| Events.CountAppend | src/Crossword.ts:36 | the occurrences of a listener in two concatenated lists add up |
| Engine.CellInfo.constructor | src/Crossword.ts:13-34 | a new cell has empty contents, no highlight, no listeners and no deliveries |
| Engine.CellInfo.SetContents | src/Crossword.ts:16-29 | the setter stores exactly the new value (`isPennedIn` holds iff it is not empty), delivers it to every listener in order, and makes every listening light re-emit once per registration |
| Engine.CellInfo.EmitContentChanged | src/Crossword.ts:41-45 | the emit loop: the delivery log grows by exactly `Emit(listeners, v)` and each forwarding light's log grows by its echo |
| Engine.CellInfo.SetHighlight | src/Crossword.ts:22-25 | the highlight setter stores the value and delivers it to every highlight listener |
| Engine.CellInfo.OnContentChanged | src/Crossword.ts:35-37 | `on` appends the listener |
| Engine.CellInfo.OffContentChanged | src/Crossword.ts:38-40 | `off` filters the listener out |
| Engine.CellInfo.OnHighlightChanged | src/Crossword.ts:35-37 | `on` appends the listener |
| Engine.CellInfo.OffHighlightChanged | src/Crossword.ts:38-40 | `off` filters the listener out |
| Engine.Light.CellChanged | src/Crossword.ts:86-88 | `cellChanged` re-emits `contentChanged` with the light to every light listener and changes nothing else |
| Engine.Light.constructor | src/Crossword.ts:73-92 | a new light has no cells, no clue, no listeners and no deliveries |
| Engine.Light.SetCellInfos | src/Crossword.ts:76-82 | the setter stores the cells and adds the light's `cellChanged` to each cell once per occurrence of that cell; earlier registrations stay |
| Engine.Light.On | src/Crossword.ts:93-95 | `on` appends the listener |
| Engine.Light.Off | src/Crossword.ts:96-98 | `off` filters the listener out |
| Engine.HighlightLayout | src/Crossword.ts:158-167 | exactly the slot `mod(index, n)` is CursorBefore; with `n >= 2` exactly the slot `mod(index - 1, n)` is CursorAfter; every other slot is CurrentWord; with one cell that cell is CursorBefore; no slot is left at None |
| Engine.LastIndex | src/Crossword.ts:159-167 | the last place of a cell in a light, the place whose highlight the pass leaves on it |
| Engine.LastIndexOfDistinct | src/Crossword.ts:159-167 | in a light without repeated cells each cell's last place is its only place |
| Engine.HighlightCells | src/Crossword.ts:158-167 | the `forEach` of the `cursorMoved` handler: each cell of the light ends with the highlight of its last place and hears one `highlightChanged` per place; contents are untouched |
| Engine.PassLogAbsent | src/Crossword.ts:159-167 | a cell outside the light hears nothing from the pass |
| Engine.ClearCells | src/Crossword.ts:210-212 | each cell of the previous light ends at None and hears one `highlightChanged` per place it has in the light |
| Engine.FirstEmptyIndex | src/Crossword.ts:220-228 | the loop picks the least index whose cell is not penned in, or 0 when every cell is |
| Engine.FirstEmptyChoiceUnique | src/Crossword.ts:220-228 | the chosen index is unique, and it lies in `[0, n)` when the light has cells |
| Engine.FirstEmptyChoiceKept | src/Crossword.ts:207-222 | the choice depends only on the cells' contents, so resetting highlights first does not change it |
| Engine.Crossword.constructor | src/Crossword.ts:126-131 | a new crossword has no lights, no cells and no cursor |
| Engine.Crossword.GetLight | src/Crossword.ts:182-184 | `getLight` finds a light exactly when one is stored under the lid's string, and returns that light |
| Engine.Crossword.GetOrAddLight | src/Crossword.ts:186-193 | a stored light is returned with the map unchanged; otherwise exactly one fresh empty light is added under the lid |
| Engine.Crossword.GetOrAddCell | src/Crossword.ts:195-204 | a stored CellInfo is returned with the map unchanged; otherwise exactly one fresh empty CellInfo is added under the handle |
| Engine.Crossword.CollectCells | src/Crossword.ts:173 | `cells.map(getOrAddCell)`: one CellInfo per handle in order (equal handles share one), with missing handles added as fresh empty cells and stored cells kept |
| Engine.Crossword.SetCellsForLight | src/Crossword.ts:171-175 | the light under the lid (created if needed) holds `getOrAddCell` of the handles in order; each of its cells gains one forwarding registration per occurrence; the light keeps its clue, listeners and log (a new one has none); stored cells keep their contents, highlight and logs, and new cells are empty; other lights keep their cells, clue, listeners and log |
| Engine.Crossword.Gather | src/Crossword.ts:172-173 | the light under the lid (a fresh empty one if missing) and `getOrAddCell` of each handle in order, every one of them a registered cell; no light changes |
| Engine.Crossword.Attach | src/Crossword.ts:174 | the light stores the cells and keeps its clue, listeners and log; every registered cell gains one forwarding registration per occurrence and keeps its contents, highlight and logs |
| Engine.Crossword.SetClueForLight | src/Crossword.ts:177-180 | the light under the lid (created if needed) gets the clue and keeps its cells, listeners and log; other lights, the cells, the cursor and its listeners and log are unchanged |
| Engine.Crossword.On | src/Crossword.ts:237-239 | `on('cursorMoved')` appends the listener |
| Engine.Crossword.Off | src/Crossword.ts:240-242 | `off('cursorMoved')` filters the listener out |
| Engine.Crossword.MoveCursor | src/Crossword.ts:154-168 | the emit of `cursorMoved`: the constructor's handler highlights the cursor's light, if there is one, and leaves every other cell alone; then every added listener receives the cursor |
| Engine.Crossword.KeyDown | src/Crossword.ts:132-152 | a key other than Backspace is handled only when its UTF-16 `length` is 1; with a cursor on a known light of `n >= 1` cells, typing writes the upper-cased key at `mod(index, n)` and adds 1 to the index, and Backspace clears `mod(index - 1, n)` and subtracts 1; neither wraps the index; no other cell's contents change; any other key, no cursor or an unknown light changes nothing; a light with no cells fails without changing anything |
| Engine.Crossword.TypeThenErase | src/Crossword.ts:133-150 | a key of UTF-16 `length` 1 followed by Backspace restores the cursor index and leaves the cell just written empty, with every other cell unchanged |
| Engine.Crossword.Step | src/Crossword.ts:137-150 | one handled keystroke on a light with cells: the cell at `mod(at, n)` gets the value, the cursor index becomes the new one, the light is highlighted for it and `cursorMoved` is delivered; no other cell's contents change |
| Engine.Crossword.WriteCell | src/Crossword.ts:137-147 | `cellInfo.contents = value` inside the handler: the cell's setter runs and every light re-emits its echo; nothing else changes |
| Engine.Crossword.CursorCells | src/Crossword.ts:207-209 | the cells of the previous cursor's light when there is a cursor and its light exists; all of them are registered cells |
| Engine.Crossword.NoPreviousCells | src/Crossword.ts:207-209 | with no cursor, or no light under the cursor's lid, there are no previous cells to reset |
| Engine.Crossword.ClearPrevious | src/Crossword.ts:207-214 | the first step of `setCursor`: every cell of the previous cursor's light ends at None; other cells keep their highlight |
| Engine.Crossword.Activate | src/Crossword.ts:216-231 | an unknown lid throws with the cursor unchanged; otherwise the cursor moves to the given index, or to the first cell not penned in, and `cursorMoved` is emitted |
| Engine.Crossword.SetCursor | src/Crossword.ts:206-232 | the previous light's cells are reset to None first; an unknown lid then throws; otherwise the cursor is set and the new light highlighted, so a cell in both lights ends with the new highlight and its log holds the reset, then the pass |
| Grid.GetLights | src/Grid.ts:18-57 | the scan returns exactly the lights of the declarative definition, line by line |
| Grid.ScanLine | src/Grid.ts:27-53 | one pass of the outer loop appends exactly the lights of that line, in start order |
| Grid.StepExtend | src/Grid.ts:30-31 | an unmarked cell extends the open light |
| Grid.StepMarked | src/Grid.ts:32-45 | a cell with the direction's attribute closes the open light and opens a new one, unless its value is "no-light", which opens none |
| Grid.StepBlock | src/Grid.ts:46-49 | a block closes the open light |
| Grid.StepSkip | src/Grid.ts:29-49 | an element that is neither cell nor block, an unmarked cell with no light open, and a block with no light open change nothing |
| Grid.LidShape | src/Grid.ts:37-42 | the lid of a light ends with a dash and the direction's name, and begins with `(` when the start cell has no number |
| Grid.LightsAreWellFormed | src/Grid.ts:26-53 | every emitted light is non-empty; its first cell carries the direction's attribute with a value other than "no-light"; its lid is the number or the coordinates; its cells lie on one line in increasing order with no interrupting slot after the start; and they are exactly the slots that belong to it |
| Grid.LightsInStartOrder | src/Grid.ts:26-28 | the lights of one direction come in the order of their start cells (row-major across, column-major down) |
| Grid.CellInAtMostOneLight | src/Grid.ts:26-53 | two different lights of one direction share no cell |
| Grid.EveryStartOpensALight | src/Grid.ts:32-42 | every cell that opens a light has its light among the emitted ones |
| Grid.OpenIsUninterrupted | src/Grid.ts:27-49 | a light still open has a start cell and no interrupting slot after it, so no light carries over into the next line |
| Grid.MembersClosed | src/Grid.ts:32-49 | once a marked cell or a block follows the start, the light gains no more cells |
| GridConnect.Latest | src/Grid.ts:64-66 | the cells a lid ends up with are those of the last light registered under it |
| GridConnect.LatestIsLast | src/Grid.ts:64-66 | the cells `Latest` gives for a lid belong to a light carrying that lid with no later light carrying it |
| GridConnect.Place | src/Grid.ts:65 | one `setCellsForLight(light.lid, light.cells)` call: every lid registered so far holds the cells of its latest light |
| GridConnect.Register | src/Grid.ts:64-66 | after the loop every lid holds the cells of its last light in order, every handle is a registered cell, lights not named keep their cells, cells already registered keep their contents and new cells are empty |
| GridConnect.ConnectGrid | src/Grid.ts:59-66 | the across lights, then the down lights, are registered; no cell already registered changes its contents and new cells are empty |
| Lids.Split | src/Lid.ts:10 | `split("-")`: the pieces contain no dash, and joined with dashes they give the string back |
| Lids.New | src/Lid.ts:5-14 | a non-empty start stores both fields as given; otherwise the start is the text before the first dash and the type is the next segment |
| Lids.Canonical | src/Lid.ts:16-18 | `toInternalLid` begins with the start followed by a dash |
| Lids.ParseRoundTrip | src/Lid.ts:5-18 | parsing the canonical string reproduces the fields when the type is defined and neither field contains a dash |
| Lids.ConstructParseRoundTrip | src/LidMap.ts:5-18 | `new Lid(new Lid(type, start).toString())` has the same fields as `new Lid(type, start)` when the start is non-empty and neither field contains a dash |
| Lids.UndefinedTypeParsesAsText | src/Lid.ts:10-17 | a Lid without a type prints "undefined", which parses back as the type "undefined" |
| Lids.EqualsIsEquivalence | src/Lid.ts:20-22 | `equals` is reflexive, symmetric and transitive |
| Lids.EqualsIffSameFields | src/LidMap.ts:20-22 | with dash-free fields and a defined type, `equals` holds iff the fields are equal |
| Lids.DashesConfuseEquals | src/LidMap.ts:20-22 | with dashes in the fields, two different Lids can be `equals` |
| LidMaps.LidMap.constructor | src/LidMap.ts:28-30 | a new map is empty and keeps the given default factory |
| LidMaps.LidMap.Get | src/LidMap.ts:32-43 | `get` returns a truthy stored value; otherwise it calls the factory once, stores the result and returns it; without a factory it returns undefined |
| LidMaps.LidMap.Set | src/LidMap.ts:45-47 | `set` stores the value under the key's string and changes no other entry |
| LidMaps.GetWithFactoryIsDefined | src/LidMap.ts:36-40 | with a factory `get` never returns undefined |
| LidMaps.RepeatedGetIsStable | src/LidMap.ts:32-40 | a repeated `get` of an equal key after a truthy result returns the same value without calling the factory again |
| LidMaps.GetChangesOnlyMissingEntries | src/LidMap.ts:33-42 | `get` leaves the map alone when the key holds a truthy value or there is no factory; a falsy stored value is replaced by the factory's result |
| LidMaps.SetThenGet | src/LidMap.ts:32-47 | after `set(k, v)` with a truthy `v`, `get` of any Lid equal to `k` returns `v` |
| Text.CoordKey | src/Grid.ts:59-60 | the start key `(row,column)` begins with `(`, ends with `)` and has no dash for non-negative coordinates |
| Text.IntToString | src/BoxClue.ts:45 | a template literal renders an integer with a dash exactly when it is negative |
| Text.UpperChar | src/Crossword.ts:147 | a lower-case ASCII letter becomes the capital 32 code points below it; any other character is kept |
| Text.NatToStringInjective | src/BoxClue.ts:45 | different natural numbers render as different decimal strings |
| Text.IntToStringInjective | src/BoxClue.ts:45 | different integers render as different strings, so distinct coordinates give distinct start keys |
| Text.Upper | src/Crossword.ts:147 | `toUpperCase` keeps the length and maps each ASCII lower-case letter to its capital |
| Text.Utf16Length | src/Crossword.ts:142 | `length` counts between one and two units per character, and exactly one per character iff every character is in the Basic Multilingual Plane |
| Text.SingleUnit | src/Crossword.ts:142 | `length === 1` holds exactly for a single character of the Basic Multilingual Plane |
| Text.AstralIsTwoUnits | src/Crossword.ts:142 | a character outside the Basic Multilingual Plane has `length` 2, so the handler ignores it |
| BoxClue.Resolve | src/BoxClue.ts:20-39 | exactly the six supported values resolve; each names the neighbouring cell by its side and the light's direction by its suffix |
| BoxClue.ResolveIsInjective | src/BoxClue.ts:20-39 | different supported values resolve to different targets |
| BoxClue.TargetLid | src/BoxClue.ts:45 | the lid is the canonical string of `new Lid(type, "(row,column)")` |
| BoxClue.TargetLidMatchesScanner | src/BoxClue.ts:45 | for a start cell without a number, the box clue's lid is the scanner's lid for that light |
| BoxClue.NumberedStartUnreachable | src/Grid.ts:37-42 | a light whose start cell has a number not beginning with `(` is never reached by a box clue |
| BoxClue.Connect | src/BoxClue.ts:20-46 | an unsupported value does nothing; an unknown target lid throws; otherwise that light's clue is set; every other light, and the target's cells, listeners and log, are unchanged |
| Ref.Piece | src/Ref.ts:33-37 | an empty cell renders as `_`, any other cell as its contents unchanged |
| Ref.Render | src/Ref.ts:32-38 | `updateInner`'s text has at least one character per cell |
| Ref.RenderAppend | src/Ref.ts:32-38 | the cells are rendered in light order and joined with no separator |
| Ref.RenderPositional | src/Ref.ts:32-38 | with at most one character per cell the pattern has one character per cell, `_` exactly at the empty ones |
| Ref.ContentsOf | src/Ref.ts:32 | the contents of the light's cells, in light order |
| Ref.ConnectRef | src/Ref.ts:16-23 | a known light (key `""` when the attribute is missing or empty) is rendered and subscribed to once; an unknown key renders nothing and subscribes nothing; no light's cells, clue or log change, and no other light gains a listener |
| Ref.SubscribedHears | src/Ref.ts:22 | once subscribed, the reference element receives every `contentChanged` the light emits |

## Left out

- DOM, shadow DOM, CSS and custom-element registration (`src/kreuzwort.ts`, constructors and `style` blocks) are not modelled. They are presentation.
- The highlight-to-class switch of `src/Cell.ts` and the copy in `src/CurrentClue.ts` are not modelled. They are rendering only.
- `src/Clue.ts` is not modelled. Its behaviour depends on browser focus-event dispatch, and its `cursorMoved` payload belongs to another iteration of the engine.
- `src/Events.ts` holds type declarations only.
- The position lookups by `indexOf` in `src/BoxClue.ts` and `src/GridElement.ts`, and the loop that builds the grid from `children` in `src/Grid.ts`, are not modelled. Row, column and grid are inputs instead.
- The focus listener a box clue installs (`setCursor(lid)` on focus) and the click handler of the reference element are not modelled. They wait for browser events; what they call is `Engine.Crossword.SetCursor`.
- `console.log` calls are left out.
- Listeners are identifiers, not closures. An outside listener's effect is not modelled, so re-entrant callbacks are not covered. The one engine-internal listener, a light's bound `cellChanged`, is executed. Each `bind` makes a new function, so in the source no `off` can remove a forwarding registration; in the model every registration of a light is the same `Forward(light)`, and `Engine.CellInfo.OffContentChanged(Forward(l))` would remove all of them at once. The engine never makes that call.
- Ref.ConnectRef: the recomputation of the text on each later `contentChanged` is not executed. `Ref.SubscribedHears` states only that the listener receives every such event.
- Text.Upper: only ASCII letters are mapped. Unicode case mapping is not modelled.
- Modular.ModIndex: requires a non-empty sequence. The empty case, where `modIndex` yields undefined, is modelled at its one caller as `KeyOutcome.Threw`.
- Engine.Crossword.KeyDown: `Threw` stands for the TypeError that writing to an undefined cell raises. It is reported before anything changes, which matches the source, because the write is the first effect.
- Engine.Crossword.KeyDown: the cursor is a value. The source mutates the cursor object it has just emitted, so listeners that keep that object would see later moves; this aliasing is not modelled.
- Numbers in JavaScript are doubles. Indices and coordinates here are unbounded integers, so precision loss beyond 2^53 is not modelled.
- GridConnect.ConnectGrid: grids must be rectangular and have at least one row. The source reads `grid[0].length` and so fails on an empty grid.
- GridConnect.Register: the model requires the crossword's invariants, that light cells are registered and no two lids share a light. This holds for any crossword built only through these operations.
- A box clue cannot reach a light whose start cell has a number not beginning with `(`. That light's lid is the number, not the coordinates (`BoxClue.NumberedStartUnreachable`). Connecting such a box clue takes the `NoLight` path.

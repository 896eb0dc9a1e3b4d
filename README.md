# RGB guessing game — Dafny model

`script.js` runs a colour-guessing game in the browser. The page shows the text
`rgb(r, g, b)` of a target colour, and the player clicks the tile that has that
colour. The script keeps fifteen tile elements. It also keeps a palette of 5, 10
or 15 colour texts, the target (`winColor`), the palette size (`numberOfColors`)
and a selection lock (`selectionAllowed`). It responds to four kinds of event:

- a tile click;
- the reset ("New Colors" / "Play Again?") button;
- the three difficulty buttons;
- the two timer callbacks of the win animation: a repeating 80 ms tick that
  paints one more tile with the win colour, and a one-shot 1000 ms unlock.

The model has four modules:

- `Wrappers`: `Option`.
- `Colors` (`colors.dfy`): `generateColor`, `generateRandomColors` and
  `getWinColor`, with the random draws as parameters. It also defines
  `ParseRgb`, which reads a colour text back. The round trip
  `ParseRgb(GenerateColor(r, g, b)) == Some(Rgb(r, g, b))` shows that distinct
  channel triples give distinct texts. The handler's string comparison relies
  on this.
- `Rules` (`rules.dfy`): everything the script keeps, as one `State` value.
  Each event is a function from one `State` to the next. The invariant `Inv`
  holds between any two events and is proved preserved by each of them. The
  lemmas state the game's rules.
- `Script` (`script.dfy`): class `Game`, which holds the script's module-level
  state. The tiles are an `array<Tile>` rewritten in place, and the other
  variables are fields. Each event is a method. Each method is proved to move
  `Snapshot()` exactly as the matching `Rules` function does, and to keep
  `Valid()`. `DisplayBlocks` and the start-up painting loop are `for` loops over
  the array. `Click` runs the handler once for every listener registered on the
  tile.

Two behaviours of the source are modelled on purpose:

- Every `reset` calls `prepareColors` again, which adds another click listener
  to every tile. After n resets, one click therefore runs the handler n + 1
  times. `RepeatedHandlersActOnce` proves that k ≥ 1 runs equal one run. After a
  wrong run the tile is already transparent, and `"transparent"` is never the
  win colour. After a winning run the lock is closed, so the later runs do
  nothing.
- Every win starts a new paint interval, and no interval is ever cleared. The
  state therefore keeps one counter per interval. Any interval can tick at any
  time, and a tick paints with whatever win colour is current at that moment.

## Model

| member | source | states |
|---|---|---|
| `Colors.Decimal` | script.js:132 | the text of a channel value is non-empty and made only of decimal digits |
| `Colors.DecimalRoundTrip` | script.js:132 | reading the decimal text of n as digits gives n back |
| `Colors.GenerateColor` | script.js:125-133 | the colour text of three drawn channels starts with `rgb(` and ends with `)`; `ColorRoundTrip` and `GenerateColorInjective` carry its full meaning |
| `Colors.ColorRoundTrip` | script.js:125-133 | reading back `rgb(r, g, b)` produced by `generateColor` yields exactly the three channels drawn |
| `Colors.GenerateColorInjective` | script.js:128-132 | two draws whose colour texts are equal are the same draw, so comparing texts compares colours |
| `Colors.TransparentIsNoColor` | script.js:94 | `"transparent"`, which a wrong click writes, is not a colour text |
| `Colors.Palette` | script.js:108-120 | the palette of the given draws has one entry per draw, each a non-empty text starting with `rgb(`; `GenerateRandomColors` computes it by its loop and `PaletteRoundTrip` reads it back |
| `Colors.PaletteRoundTrip` | script.js:108-120 | the palette has one entry per draw, and each entry reads back as its draw |
| `Colors.GenerateRandomColors` | script.js:108-120 | the loop returns exactly `numberOfColors` colours, entry k generated from draw k, duplicates kept |
| `Colors.GetWinColor` | script.js:168-171 | for any index below the palette length, the win colour is an element of the palette |
| `Rules.Displayed` | script.js:234-246 | `displayBlocks` keeps the number of tiles; what each tile becomes is stated by `DisplayedShows`, and `DisplayBlocks` computes it in place |
| `Rules.DisplayedShows` | script.js:237-245 | after `displayBlocks` a tile is displayed exactly when its palette entry is truthy; a displayed tile shows that entry and a hidden tile keeps its colour |
| `Rules.Blank` | script.js:51-60 | `createColorElements` makes fifteen tiles, each displayed with no colour |
| `Rules.Painted` | script.js:135-138 | the start-up loop gives each tile i below the palette length the colour `colors[i]` and leaves the tiles past the palette unchanged; it never changes visibility; `PaintedAfterDisplayed` states its effect after `displayBlocks` |
| `Rules.VisibleCountPrefix` | script.js:237-245 | when exactly the tiles below n are displayed, n tiles are displayed |
| `Rules.DisplayedIdempotent` | script.js:228-230 | running `displayBlocks` twice with one palette, as `reset` does through `prepareColors`, equals running it once |
| `Rules.PaintedAfterDisplayed` | script.js:135-138 | the start-up loop that assigns `colors[i]` to each tile changes nothing after `displayBlocks` has shown the same palette, when the palette has no empty entry |
| `Rules.ColorTextIsPaletteEntry` | script.js:238 | a colour text is truthy (non-empty) and differs from `"transparent"` |
| `Rules.PaletteEntries` | script.js:114-116 | every generated palette colour is truthy and never `"transparent"` |
| `Rules.WinColorIsEntry` | script.js:169-170 | under the invariant the win colour is never `"transparent"` |
| `Rules.VisibleMatchesPalette` | script.js:237-245 | under the invariant the number of displayed tiles equals the palette length |
| `Rules.Initial` | script.js:1-138 | the top-level code (lines 1-46) followed by the start-up loop (lines 135-138) leaves fifteen tiles, the palette of the ten draws holding the win colour, its text shown and `numberOfColors` 15; tiles 0 to 9 show the palette and are displayed, tiles 10 to 14 are hidden with no colour; selection is allowed, no animation is running, and there is one listener per tile; `InitialInv` adds the invariant |
| `Rules.InitialInv` | script.js:1-46 | after the top-level code the invariant holds, with `numberOfColors` 15, a palette of 10 and 10 tiles displayed |
| `Rules.HandleClick` | script.js:72-96 | one run of the click listener keeps the number of tiles, the palette, the win colour and its text, the palette size, the listeners and the difficulty markers; `WrongClick`, `WinningClick` and `LockedClickIgnored` state its three branches |
| `Rules.HandleClicks` | script.js:68-97 | the k listeners of one tile run in turn keep the number of tiles; `RepeatedHandlersActOnce` shows they act as one run |
| `Rules.WrongClick` | script.js:92-95 | an unlocked click on a tile whose colour differs from the win colour makes that tile transparent and sets "Try again!"; the other tiles, the lock and everything else are unchanged |
| `Rules.WrongClickShrinksOpaque` | script.js:94 | a wrong click lowers the number of non-transparent tiles by one, or by none if that tile was already transparent |
| `Rules.WinningClick` | script.js:80-89 | an unlocked click on any tile showing the win colour sets "Groovy.", paints the header with the win colour, closes the lock, starts one paint interval at 0 with an unlock pending, and sets "Play Again?"; nothing else changes, tiles, palette and win colour included |
| `Rules.LockedClickIgnored` | script.js:75 | a tile click while selection is locked changes nothing |
| `Rules.HandleClickIdempotent` | script.js:72-96 | when the win colour is not `"transparent"`, a second run of the handler on the same tile changes nothing |
| `Rules.RepeatedHandlersActOnce` | script.js:65-98 | when the win colour is not `"transparent"`, running the handler k ≥ 1 times (one per `prepareColors` call) equals running it once |
| `Rules.HandleClickInv` | script.js:72-97 | a tile click keeps the invariant |
| `Rules.AlwaysWinnable` | script.js:80-89 | while selection is allowed, some displayed tile wins the round when clicked |
| `Rules.ResetStep` | script.js:211-232 | `reset` keeps the number of tiles, the palette size, the difficulty markers, the lock, the paint intervals and the pending unlock; `ResetEffect` and `LockedResetIgnored` state its two branches |
| `Rules.ResetEffect` | script.js:211-232 | an unlocked reset sets "Guess the color.", a black header and "New Colors"; the palette has `numberOfColors` colours from the draws, and the win colour is in it and shown as text; tiles below `numberOfColors` show the palette and are displayed; the others are hidden with their colour kept; exactly `numberOfColors` tiles are displayed; one listener is added; the palette size, markers, paint intervals and pending unlock are unchanged |
| `Rules.ResetInv` | script.js:211-232 | a reset keeps the invariant, locked or not |
| `Rules.LockedResetIgnored` | script.js:213 | a reset while selection is locked changes nothing |
| `Rules.SizeForLabel` | script.js:196-204 | "Easy" gives 5, "Medium" gives 10, and any other button text gives 15, in both directions |
| `Rules.DifficultyStep` | script.js:186-207 | a difficulty click keeps the number of tiles, the lock, the paint intervals and the pending unlock; `DifficultyEffect` and `LockedDifficultyIgnored` state its two branches |
| `Rules.DifficultyEffect` | script.js:186-207 | an unlocked difficulty click marks only the clicked button, sets the size from its text, then resets: texts reset, the palette of that size from the draws holding the win colour, its text shown, the tiles below the size showing the palette and the rest hidden with their colour kept, that many tiles displayed, one listener added, paint intervals and pending unlock unchanged, invariant kept |
| `Rules.DifficultyInv` | script.js:186-207 | a difficulty click keeps the invariant, locked or not |
| `Rules.LockedDifficultyIgnored` | script.js:188 | a difficulty click while selection is locked changes nothing, not even the markers |
| `Rules.FirstNewColorsShowsFifteen` | script.js:1-28 | since `numberOfColors` starts at 15 while the first palette has 10 colours, a reset before any difficulty click gives 15 colours and 15 displayed tiles |
| `Rules.TickStep` | script.js:149-155 | a tick keeps the number of tiles and intervals, the palette, the win colour and the lock; `TickEffect` states what it paints |
| `Rules.TickEffect` | script.js:149-155 | a tick with counter below 15 paints exactly that tile with the current win colour and advances only that counter; at 15 it changes nothing; the invariant, including counter ≤ 15, is kept |
| `Rules.TicksPaintPrefix` | script.js:147-155 | after t ≤ 15 ticks of a fresh interval, the first t tiles show the win colour, the rest are untouched, that interval's counter is t, the other counters are unchanged, and nothing else changes |
| `Rules.UnlockStep` | script.js:159-162 | the unlock callback allows selection and clears the pending unlock, with tiles, palette and win colour unchanged; `UnlockEffect` states that nothing else changes |
| `Rules.UnlockEffect` | script.js:159-162 | the unlock callback reopens selection and changes nothing else; the invariant is kept |
| `Rules.WinAnimationCompletes` | script.js:143-163 | after a winning click, fifteen ticks of its interval and the unlock, every tile shows the win colour and selection is allowed |
| `Script.Game.constructor` | script.js:1-46 | the object starts in the state the top-level code produces, with the invariant |
| `Script.Game.DisplayBlocks` | script.js:234-246 | the in-place loop turns the tile array into the shown palette |
| `Script.Game.PaintStartColors` | script.js:135-138 | the in-place start-up loop assigns `colors[i]` to each tile that has one |
| `Script.Game.PrepareColors` | script.js:65-102 | one more listener per tile, then the palette shown; nothing else changes |
| `Script.Game.RunClickListener` | script.js:72-96 | one run of the listener updates the object as `HandleClick` says |
| `Script.Game.Click` | script.js:68-97 | running all registered listeners updates the object as a single run does, and keeps the invariant |
| `Script.Game.Reset` | script.js:211-232 | updates the object as `ResetStep` says, and keeps the invariant |
| `Script.Game.ResetButtonClick` | script.js:173-179 | updates the object as `ResetStep` says, and keeps the invariant |
| `Script.Game.DifficultyClick` | script.js:184-209 | updates the object as `DifficultyStep` says, and keeps the invariant |
| `Script.Game.Tick` | script.js:149-155 | updates the object as `TickStep` says, and keeps the invariant |
| `Script.Game.Unlock` | script.js:159-162 | updates the object as `UnlockStep` says, and keeps the invariant |

## Left out

- `Math.random` (script.js:128-130, 169): the channel draws, the palette draws
  and the win-colour index are parameters.
- Browser plumbing has no logic of its own and is not modelled:
  `querySelector`, `createElement`, `appendChild`, the `"color"` class, the
  `"waiting"` class on the body and `addEventListener`. The only part of
  `addEventListener` that is modelled is the count of listeners per tile.
- The text of the three difficulty buttons and the starting message, header,
  reset label and "selected" markers come from the page's markup, which is not
  part of this model. The constructor takes them as parameters, and
  `DifficultyClick` takes the clicked button's text.
- Real time is not modelled. The 80 ms interval and the 1000 ms timeout are the
  explicit steps `Tick` and `Unlock`, which may fire in any order. The race
  where the unlock comes before the last ticks at 15 tiles (15 × 80 ms is more
  than 1000 ms) is therefore not treated separately. A late tick paints with
  whatever win colour is current.
- `chosenColor` (script.js:10) is written at script.js:77 and read only at
  script.js:80, in the same run of the handler. Nothing reads it across
  events, so the model treats it as a local of the handler.
- The browser's rewriting of `style.backgroundColor` is not modelled. The text
  `rgb(r, g, b)` is taken to come back from the style property unchanged. At
  start-up, assigning `undefined` (script.js:137, tiles 10 to 14) is taken to
  leave the tile's colour unchanged.
- A click is accepted on any of the fifteen tiles, including hidden ones, even
  though a browser does not deliver clicks to hidden elements.
- `Rules.Inv` says only that every palette entry is non-empty and not
  `"transparent"`, which is all the rules need. That every entry is a full
  `rgb(r, g, b)` text is proved separately, by `Colors.PaletteRoundTrip`.

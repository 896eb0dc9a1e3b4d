/**
 * The game's rules as a state machine over values. `State` holds everything
 * the script keeps between events: the fifteen tile elements, the palette,
 * the win colour, the difficulty size, the selection lock, the texts it
 * writes, the difficulty markers, how many click listeners each tile has, the
 * counters of the paint intervals and whether an unlock timeout is pending.
 * Each input or timer callback is a function from one `State` to the next;
 * the class in module Script performs the same steps in place and is proved
 * against these functions.
 */
module Rules {
  import opened Colors

  /** Number of tile elements: created once at start-up, while `numberOfColors` is 15. */
  const TileCount := 15

  const Transparent := "transparent"

  /** One tile element: its background colour text and whether it is displayed. */
  datatype Tile = Tile(colour: string, visible: bool)

  datatype State = State(
    tiles: seq<Tile>,
    colors: seq<string>,
    winColor: string,
    numberOfColors: nat,
    selectionAllowed: bool,
    message: string,
    header: string,
    resetLabel: string,
    winColorText: string,
    selected: seq<bool>,
    listeners: nat,
    intervals: seq<nat>,
    unlockPending: bool)

  // ---------------------------------------------------------------------------
  // Tiles

  /** `colors[i]` is truthy in JavaScript: it exists and is not the empty string. */
  predicate Defined(colors: seq<string>, i: nat) {
    i < |colors| && colors[i] != ""
  }

  /** `displayBlocks`: tile i shows `colors[i]` when that is truthy, otherwise it is hidden with its colour kept. */
  function Displayed(tiles: seq<Tile>, colors: seq<string>): (r: seq<Tile>)
    ensures |r| == |tiles|
  {
    seq(|tiles|, i requires 0 <= i < |tiles| =>
      if Defined(colors, i) then Tile(colors[i], true) else tiles[i].(visible := false))
  }

  /**
   * After `displayBlocks` a tile is displayed exactly when its palette entry is
   * truthy; a displayed tile shows that entry and a hidden one keeps its colour.
   */
  lemma DisplayedShows(tiles: seq<Tile>, colors: seq<string>)
    ensures var r := Displayed(tiles, colors);
      && (forall i :: 0 <= i < |r| ==> (r[i].visible <==> Defined(colors, i)))
      && (forall i :: 0 <= i < |r| && Defined(colors, i) ==> r[i].colour == colors[i])
      && (forall i :: 0 <= i < |r| && !Defined(colors, i) ==> r[i].colour == tiles[i].colour)
  {
  }

  /**
   * The start-up loop that assigns `colors[i]` to every tile; for i past the
   * palette it assigns `undefined`, which the style property ignores.
   */
  function Painted(tiles: seq<Tile>, colors: seq<string>): (r: seq<Tile>)
    ensures |r| == |tiles|
    ensures forall i :: 0 <= i < |r| ==> r[i].visible == tiles[i].visible
    ensures forall i :: 0 <= i < |r| && i < |colors| ==> r[i] == tiles[i].(colour := colors[i])
    ensures forall i :: 0 <= i < |r| && i >= |colors| ==> r[i] == tiles[i]
  {
    seq(|tiles|, i requires 0 <= i < |tiles| =>
      if i < |colors| then tiles[i].(colour := colors[i]) else tiles[i])
  }

  /** The tile elements as `createColorElements` makes them: no colour, displayed. */
  function Blank(): (r: seq<Tile>)
    ensures |r| == TileCount
    ensures forall i :: 0 <= i < |r| ==> r[i].visible && r[i].colour == ""
  {
    seq(TileCount, _ => Tile("", true))
  }

  /** Number of tiles that satisfy `p`. */
  function CountWhere(tiles: seq<Tile>, p: Tile -> bool): nat {
    if tiles == [] then 0
    else CountWhere(tiles[..|tiles| - 1], p) + (if p(tiles[|tiles| - 1]) then 1 else 0)
  }

  predicate IsVisible(t: Tile) {
    t.visible
  }

  /** A tile still in play: not turned transparent by a wrong click. */
  predicate InPlay(t: Tile) {
    t.colour != Transparent
  }

  function VisibleCount(tiles: seq<Tile>): nat {
    CountWhere(tiles, IsVisible)
  }

  function OpaqueCount(tiles: seq<Tile>): nat {
    CountWhere(tiles, InPlay)
  }

  /** When exactly the first n tiles are displayed, n tiles are displayed. */
  lemma {:induction false} VisibleCountPrefix(tiles: seq<Tile>, n: nat)
    requires n <= |tiles|
    requires forall i :: 0 <= i < |tiles| ==> (tiles[i].visible <==> i < n)
    ensures VisibleCount(tiles) == n
  {
    if tiles != [] {
      var init := tiles[..|tiles| - 1];
      if n == |tiles| {
        VisibleCountPrefix(init, n - 1);
      } else {
        VisibleCountPrefix(init, n);
      }
    }
  }

  /** Replacing one tile changes the count by what that tile contributes before and after. */
  lemma {:induction false} CountWhereUpdate(tiles: seq<Tile>, p: Tile -> bool, i: nat, t: Tile)
    requires i < |tiles|
    ensures CountWhere(tiles[i := t], p) + (if p(tiles[i]) then 1 else 0)
         == CountWhere(tiles, p) + (if p(t) then 1 else 0)
  {
    var last := |tiles| - 1;
    if i < last {
      CountWhereUpdate(tiles[..last], p, i, t);
      assert tiles[i := t][..last] == tiles[..last][i := t];
    } else {
      assert tiles[i := t][..last] == tiles[..last];
    }
  }

  /** Showing the same palette twice is showing it once; `reset` runs `displayBlocks` twice. */
  lemma DisplayedIdempotent(tiles: seq<Tile>, colors: seq<string>)
    ensures Displayed(Displayed(tiles, colors), colors) == Displayed(tiles, colors)
  {
  }

  /** After `displayBlocks`, the start-up loop repaints the same colours and changes nothing. */
  lemma PaintedAfterDisplayed(tiles: seq<Tile>, colors: seq<string>)
    requires forall k :: 0 <= k < |colors| ==> colors[k] != ""
    ensures Painted(Displayed(tiles, colors), colors) == Displayed(tiles, colors)
  {
  }

  /**
   * What the game needs of a palette entry: it is truthy (not empty) and it
   * differs from the text a wrong click writes.
   */
  predicate IsPaletteEntry(c: string) {
    c != "" && c != Transparent
  }

  /** Every colour text is a palette entry. */
  lemma ColorTextIsPaletteEntry(s: string)
    requires IsColorText(s)
    ensures IsPaletteEntry(s)
  {
    TransparentIsNoColor();
  }

  /** Every colour of a generated palette is a palette entry. */
  lemma PaletteEntries(samples: seq<Rgb>)
    ensures forall k :: 0 <= k < |Palette(samples)| ==> IsPaletteEntry(Palette(samples)[k])
  {
    PaletteRoundTrip(samples);
    forall k | 0 <= k < |samples| ensures IsPaletteEntry(Palette(samples)[k]) {
      ColorTextIsPaletteEntry(Palette(samples)[k]);
    }
  }

  // ---------------------------------------------------------------------------
  // The invariant

  /** Some displayed tile carries the win colour: the round can be won. */
  ghost predicate Winnable(s: State) {
    exists i :: 0 <= i < |s.tiles| && s.tiles[i].visible && s.tiles[i].colour == s.winColor
  }

  /**
   * What holds between any two events: fifteen tiles, a non-empty palette of
   * colour texts no longer than the tile row, the win colour one of them and
   * displayed as text, exactly the first |colors| tiles displayed, a tile
   * showing the win colour, at least one listener per tile, paint counters
   * bounded by the tile count, and the lock closed exactly while an unlock
   * timeout is pending.
   */
  ghost predicate Inv(s: State) {
    && |s.tiles| == TileCount
    && s.numberOfColors in {5, 10, 15}
    && 0 < |s.colors| <= TileCount
    && (forall k :: 0 <= k < |s.colors| ==> IsPaletteEntry(s.colors[k]))
    && s.winColor in s.colors
    && s.winColorText == s.winColor
    && |s.selected| == 3
    && s.listeners >= 1
    && (forall k :: 0 <= k < |s.intervals| ==> s.intervals[k] <= TileCount)
    && (forall i :: 0 <= i < |s.tiles| ==> (s.tiles[i].visible <==> i < |s.colors|))
    && s.unlockPending == !s.selectionAllowed
    && Winnable(s)
  }

  /** The win colour is a palette entry, so it never reads "transparent". */
  lemma WinColorIsEntry(s: State)
    requires Inv(s)
    ensures IsPaletteEntry(s.winColor)
  {
    var k :| 0 <= k < |s.colors| && s.colors[k] == s.winColor;
  }

  /** The palette size is the number of displayed tiles. */
  lemma VisibleMatchesPalette(s: State)
    requires Inv(s)
    ensures VisibleCount(s.tiles) == |s.colors|
  {
    VisibleCountPrefix(s.tiles, |s.colors|);
  }

  // ---------------------------------------------------------------------------
  // Start-up

  /**
   * The state after the script's top-level code: a palette of ten colours from
   * `samples`, the win colour at `pick`, `numberOfColors` still 15, one
   * listener per tile. The message, header, reset label and difficulty
   * markers come from the page's markup.
   */
  function Initial(samples: seq<Rgb>, pick: nat, message: string, header: string, resetLabel: string, selected: seq<bool>): (r: State)
    requires |samples| == 10 && pick < 10
    ensures |r.tiles| == TileCount && |r.colors| == 10 && r.winColor in r.colors
    ensures r.selectionAllowed && !r.unlockPending && r.intervals == [] && r.listeners == 1
    ensures r.colors == Palette(samples) && r.numberOfColors == 15 && r.winColorText == r.winColor
    ensures forall j :: 0 <= j < 10 ==> r.tiles[j] == Tile(r.colors[j], true)
    ensures forall j :: 10 <= j < TileCount ==> r.tiles[j] == Tile("", false)
  {
    PaletteEntries(samples);
    PaintedAfterDisplayed(Blank(), Palette(samples));
    var colors := Palette(samples);
    State(Painted(Displayed(Blank(), colors), colors), colors, GetWinColor(colors, pick), 15, true,
          message, header, resetLabel, GetWinColor(colors, pick), selected, 1, [], false)
  }

  lemma InitialInv(samples: seq<Rgb>, pick: nat, message: string, header: string, resetLabel: string, selected: seq<bool>)
    requires |samples| == 10 && pick < 10 && |selected| == 3
    ensures var s := Initial(samples, pick, message, header, resetLabel, selected);
      Inv(s) && s.numberOfColors == 15 && |s.colors| == 10 && VisibleCount(s.tiles) == 10
  {
    var colors := Palette(samples);
    PaletteEntries(samples);
    PaintedAfterDisplayed(Blank(), colors);
    var s := Initial(samples, pick, message, header, resetLabel, selected);
    assert s.tiles[pick].colour == s.winColor;
    VisibleMatchesPalette(s);
  }

  // ---------------------------------------------------------------------------
  // Tile clicks

  /**
   * One run of the click listener on tile i. While selection is allowed it
   * compares the tile's colour text with the win colour: on a match it shows
   * "Groovy.", paints the header, closes the lock, starts the win animation (a new
   * interval counter at 0 and an unlock timeout) and relabels the reset
   * button; otherwise it shows "Try again!" and makes the tile transparent.
   */
  function HandleClick(s: State, i: nat): (r: State)
    requires i < |s.tiles|
    ensures |r.tiles| == |s.tiles|
    ensures r.colors == s.colors && r.winColor == s.winColor && r.numberOfColors == s.numberOfColors
    ensures r.listeners == s.listeners && r.winColorText == s.winColorText && r.selected == s.selected
  {
    if !s.selectionAllowed then s
    else if s.tiles[i].colour == s.winColor then
      s.(message := "Groovy.", header := s.winColor, selectionAllowed := false,
         intervals := s.intervals + [0], unlockPending := true, resetLabel := "Play Again?")
    else
      s.(message := "Try again!", tiles := s.tiles[i := s.tiles[i].(colour := Transparent)])
  }

  /** k listeners on the same tile, run one after the other by a single click. */
  function HandleClicks(s: State, i: nat, k: nat): (r: State)
    requires i < |s.tiles|
    ensures |r.tiles| == |s.tiles|
  {
    if k == 0 then s else HandleClick(HandleClicks(s, i, k - 1), i)
  }

  /** A wrong click makes only that tile transparent, says "Try again!", and leaves the lock alone. */
  lemma WrongClick(s: State, i: nat)
    requires i < |s.tiles| && s.selectionAllowed && s.tiles[i].colour != s.winColor
    ensures var r := HandleClick(s, i);
      && r.tiles[i] == Tile(Transparent, s.tiles[i].visible)
      && (forall j :: 0 <= j < |s.tiles| && j != i ==> r.tiles[j] == s.tiles[j])
      && r.message == "Try again!"
      && r.selectionAllowed == s.selectionAllowed
      && r.(tiles := s.tiles, message := s.message) == s
  {
  }

  /** A wrong click takes exactly one tile out of play, unless it already was. */
  lemma WrongClickShrinksOpaque(s: State, i: nat)
    requires i < |s.tiles| && s.selectionAllowed && s.tiles[i].colour != s.winColor
    ensures OpaqueCount(HandleClick(s, i).tiles)
         == OpaqueCount(s.tiles) - (if s.tiles[i].colour != Transparent then 1 else 0)
  {
    CountWhereUpdate(s.tiles, InPlay, i, s.tiles[i].(colour := Transparent));
  }

  /**
   * A click on any tile showing the win colour, whatever its index, shows
   * "Groovy.", paints the header with the win colour, closes the lock, starts
   * the win animation and relabels the reset button; the tiles are untouched.
   */
  lemma WinningClick(s: State, i: nat)
    requires i < |s.tiles| && s.selectionAllowed && s.tiles[i].colour == s.winColor
    ensures var r := HandleClick(s, i);
      && r.message == "Groovy." && r.header == s.winColor
      && !r.selectionAllowed && r.unlockPending
      && r.resetLabel == "Play Again?"
      && r.intervals == s.intervals + [0]
      && r.tiles == s.tiles && r.colors == s.colors && r.winColor == s.winColor
      && r.(message := s.message, header := s.header, selectionAllowed := true, intervals := s.intervals,
            unlockPending := s.unlockPending, resetLabel := s.resetLabel) == s
  {
  }

  /** While selection is locked a tile click changes nothing. */
  lemma LockedClickIgnored(s: State, i: nat)
    requires !s.selectionAllowed && i < |s.tiles|
    ensures HandleClick(s, i) == s
  {
  }

  /** A second run of the listener repeats nothing: a wrong tile is already transparent, a win has locked. */
  lemma HandleClickIdempotent(s: State, i: nat)
    requires i < |s.tiles| && s.winColor != Transparent
    ensures HandleClick(HandleClick(s, i), i) == HandleClick(s, i)
  {
  }

  /**
   * Each `reset` registers one more listener per tile, so a click runs the
   * handler k times; for every k >= 1 that is the same as running it once.
   */
  lemma {:induction false} RepeatedHandlersActOnce(s: State, i: nat, k: nat)
    requires i < |s.tiles| && s.winColor != Transparent && k >= 1
    ensures HandleClicks(s, i, k) == HandleClick(s, i)
    decreases k
  {
    if k > 1 {
      RepeatedHandlersActOnce(s, i, k - 1);
      HandleClickIdempotent(s, i);
    }
  }

  lemma HandleClickInv(s: State, i: nat)
    requires Inv(s) && i < |s.tiles|
    ensures Inv(HandleClick(s, i))
  {
    var r := HandleClick(s, i);
    var w :| 0 <= w < |s.tiles| && s.tiles[w].visible && s.tiles[w].colour == s.winColor;
    assert r.tiles[w] == s.tiles[w];
  }

  /** While the round is open some displayed tile wins it. */
  lemma AlwaysWinnable(s: State)
    requires Inv(s) && s.selectionAllowed
    ensures exists i :: 0 <= i < |s.tiles| && s.tiles[i].visible && !HandleClick(s, i).selectionAllowed
  {
    var w :| 0 <= w < |s.tiles| && s.tiles[w].visible && s.tiles[w].colour == s.winColor;
    assert !HandleClick(s, w).selectionAllowed;
  }

  // ---------------------------------------------------------------------------
  // Reset and difficulty

  /**
   * `reset` once its random draws are made: while selection is allowed it
   * resets the texts, makes a palette of `numberOfColors` colours, picks the
   * win colour, adds one listener per tile (`prepareColors`) and shows the
   * palette on the tiles.
   */
  function ResetStep(s: State, samples: seq<Rgb>, pick: nat): (r: State)
    requires |samples| == s.numberOfColors && pick < |samples|
    ensures |r.tiles| == |s.tiles| && r.numberOfColors == s.numberOfColors && r.selected == s.selected
    ensures r.selectionAllowed == s.selectionAllowed && r.intervals == s.intervals && r.unlockPending == s.unlockPending
  {
    if !s.selectionAllowed then s
    else
      var colors := Palette(samples);
      var winColor := GetWinColor(colors, pick);
      s.(message := "Guess the color.", header := "black", resetLabel := "New Colors",
         colors := colors, winColor := winColor, winColorText := winColor,
         listeners := s.listeners + 1, tiles := Displayed(s.tiles, colors))
  }

  /**
   * An unlocked reset: the texts are reset, the palette has `numberOfColors`
   * colours with the win colour among them, the first `numberOfColors` tiles
   * show the palette and the others are hidden with their colour kept.
   */
  lemma ResetEffect(s: State, samples: seq<Rgb>, pick: nat)
    requires Inv(s) && s.selectionAllowed && |samples| == s.numberOfColors && pick < |samples|
    ensures var r := ResetStep(s, samples, pick);
      && r.message == "Guess the color." && r.header == "black" && r.resetLabel == "New Colors"
      && |r.colors| == s.numberOfColors && r.winColor in r.colors && r.winColorText == r.winColor
      && r.colors == Palette(samples)
      && (forall j :: 0 <= j < s.numberOfColors ==> r.tiles[j] == Tile(r.colors[j], true))
      && (forall j :: s.numberOfColors <= j < TileCount ==> r.tiles[j] == s.tiles[j].(visible := false))
      && VisibleCount(r.tiles) == s.numberOfColors
      && r.selectionAllowed && r.listeners == s.listeners + 1
      && r.intervals == s.intervals && r.numberOfColors == s.numberOfColors
      && r.selected == s.selected && r.unlockPending == s.unlockPending
      && Inv(r)
  {
    ResetInv(s, samples, pick);
    var r := ResetStep(s, samples, pick);
    VisibleMatchesPalette(r);
  }

  lemma ResetInv(s: State, samples: seq<Rgb>, pick: nat)
    requires Inv(s) && |samples| == s.numberOfColors && pick < |samples|
    ensures Inv(ResetStep(s, samples, pick))
  {
    if s.selectionAllowed {
      PaletteEntries(samples);
      var colors := Palette(samples);
      var tiles := Displayed(s.tiles, colors);
      assert tiles[pick].visible && tiles[pick].colour == colors[pick];
    }
  }

  /** The difficulty button's text fixes the palette size: "Easy" 5, "Medium" 10, any other 15. */
  function SizeForLabel(buttonText: string): (n: nat)
    ensures n == 5 <==> buttonText == "Easy"
    ensures n == 10 <==> buttonText == "Medium"
    ensures n == 15 <==> buttonText != "Easy" && buttonText != "Medium"
  {
    if buttonText == "Easy" then 5 else if buttonText == "Medium" then 10 else 15
  }

  /**
   * A click on difficulty button `button` labelled `buttonText`: while selection is
   * allowed only that button is marked selected, the size follows that text,
   * and the game is reset with the new size.
   */
  function DifficultyStep(s: State, button: nat, buttonText: string, samples: seq<Rgb>, pick: nat): (r: State)
    requires button < 3 && |samples| == SizeForLabel(buttonText) && pick < |samples|
    ensures |r.tiles| == |s.tiles| && r.selectionAllowed == s.selectionAllowed
    ensures r.intervals == s.intervals && r.unlockPending == s.unlockPending
  {
    if !s.selectionAllowed then s
    else ResetStep(s.(selected := seq(3, j => j == button), numberOfColors := SizeForLabel(buttonText)), samples, pick)
  }

  lemma DifficultyEffect(s: State, button: nat, buttonText: string, samples: seq<Rgb>, pick: nat)
    requires Inv(s) && s.selectionAllowed
    requires button < 3 && |samples| == SizeForLabel(buttonText) && pick < |samples|
    ensures var r := DifficultyStep(s, button, buttonText, samples, pick);
      && (forall j :: 0 <= j < 3 ==> (r.selected[j] <==> j == button))
      && r.numberOfColors == SizeForLabel(buttonText)
      && |r.colors| == r.numberOfColors && VisibleCount(r.tiles) == r.numberOfColors
      && r.colors == Palette(samples) && r.winColor in r.colors && r.winColorText == r.winColor
      && (forall j :: 0 <= j < r.numberOfColors ==> r.tiles[j] == Tile(r.colors[j], true))
      && (forall j :: r.numberOfColors <= j < TileCount ==> r.tiles[j] == s.tiles[j].(visible := false))
      && r.message == "Guess the color." && r.header == "black" && r.resetLabel == "New Colors"
      && r.selectionAllowed && r.listeners == s.listeners + 1
      && r.intervals == s.intervals && r.unlockPending == s.unlockPending
      && Inv(r)
  {
    var s1 := s.(selected := seq(3, j => j == button), numberOfColors := SizeForLabel(buttonText));
    ResetEffect(s1, samples, pick);
  }

  lemma DifficultyInv(s: State, button: nat, buttonText: string, samples: seq<Rgb>, pick: nat)
    requires Inv(s) && button < 3 && |samples| == SizeForLabel(buttonText) && pick < |samples|
    ensures Inv(DifficultyStep(s, button, buttonText, samples, pick))
  {
    if s.selectionAllowed {
      DifficultyEffect(s, button, buttonText, samples, pick);
    }
  }

  /** While selection is locked the reset button changes nothing. */
  lemma LockedResetIgnored(s: State, samples: seq<Rgb>, pick: nat)
    requires !s.selectionAllowed && pick < |samples| == s.numberOfColors
    ensures ResetStep(s, samples, pick) == s
  {
  }

  /** While selection is locked a difficulty button changes nothing, not even its marker. */
  lemma LockedDifficultyIgnored(s: State, button: nat, buttonText: string, samples: seq<Rgb>, pick: nat)
    requires !s.selectionAllowed && button < 3 && pick < |samples| == SizeForLabel(buttonText)
    ensures DifficultyStep(s, button, buttonText, samples, pick) == s
  {
  }

  /**
   * `numberOfColors` starts at 15 while the first palette has 10 colours, so
   * "New Colors" pressed before any difficulty click shows 15 tiles.
   */
  lemma FirstNewColorsShowsFifteen(samples: seq<Rgb>, pick: nat, message: string, header: string,
                                   resetLabel: string, selected: seq<bool>, samples': seq<Rgb>, pick': nat)
    requires |samples| == 10 && pick < 10 && |selected| == 3
    requires |samples'| == 15 && pick' < 15
    ensures var s := ResetStep(Initial(samples, pick, message, header, resetLabel, selected), samples', pick');
      |s.colors| == 15 && VisibleCount(s.tiles) == 15
  {
    var s0 := Initial(samples, pick, message, header, resetLabel, selected);
    InitialInv(samples, pick, message, header, resetLabel, selected);
    ResetEffect(s0, samples', pick');
  }

  // ---------------------------------------------------------------------------
  // Win animation timers

  /**
   * One tick of paint interval k: while its counter is below the tile count
   * it paints that tile with the win colour current at the time of the tick
   * and advances the counter; afterwards the tick does nothing.
   */
  function TickStep(s: State, k: nat): (r: State)
    requires k < |s.intervals|
    ensures |r.tiles| == |s.tiles| && |r.intervals| == |s.intervals|
    ensures r.colors == s.colors && r.winColor == s.winColor && r.selectionAllowed == s.selectionAllowed
  {
    var c := s.intervals[k];
    if c < |s.tiles| then
      s.(tiles := s.tiles[c := s.tiles[c].(colour := s.winColor)], intervals := s.intervals[k := c + 1])
    else s
  }

  lemma TickEffect(s: State, k: nat)
    requires Inv(s) && k < |s.intervals|
    ensures var r := TickStep(s, k); var c := s.intervals[k];
      && (c < TileCount ==>
            && r.tiles[c] == Tile(s.winColor, s.tiles[c].visible)
            && (forall j :: 0 <= j < TileCount && j != c ==> r.tiles[j] == s.tiles[j])
            && r.intervals == s.intervals[k := c + 1]
            && r.(tiles := s.tiles, intervals := s.intervals) == s)
      && (c == TileCount ==> r == s)
      && Inv(r)
  {
    var r := TickStep(s, k);
    var w :| 0 <= w < |s.tiles| && s.tiles[w].visible && s.tiles[w].colour == s.winColor;
    assert r.tiles[w].visible && r.tiles[w].colour == r.winColor;
  }

  /** After `ticks` ticks of a fresh interval, the first `ticks` tiles show the win colour. */
  function Ticks(s: State, k: nat, ticks: nat): State
    requires k < |s.intervals|
    decreases ticks
  {
    if ticks == 0 then s else Ticks(TickStep(s, k), k, ticks - 1)
  }

  lemma {:induction false} TicksPaintPrefix(s: State, k: nat, ticks: nat)
    requires Inv(s) && k < |s.intervals| && s.intervals[k] == 0 && ticks <= TileCount
    ensures var r := Ticks(s, k, ticks);
      && Inv(r) && r.intervals == s.intervals[k := ticks]
      && r.(tiles := s.tiles, intervals := s.intervals) == s
      && (forall j :: 0 <= j < ticks ==> r.tiles[j].colour == s.winColor)
      && (forall j :: ticks <= j < TileCount ==> r.tiles[j] == s.tiles[j])
  {
    if ticks > 0 {
      TicksPaintPrefix(s, k, ticks - 1);
      var m := Ticks(s, k, ticks - 1);
      TicksUnfold(s, k, ticks);
      TickEffect(m, k);
    }
  }

  /** The last tick of a run of ticks is one step after the others. */
  lemma {:induction false} TicksUnfold(s: State, k: nat, ticks: nat)
    requires k < |s.intervals| && ticks > 0
    ensures |Ticks(s, k, ticks - 1).intervals| == |s.intervals|
    ensures Ticks(s, k, ticks) == TickStep(Ticks(s, k, ticks - 1), k)
    decreases ticks
  {
    if ticks > 1 {
      TicksUnfold(TickStep(s, k), k, ticks - 1);
    }
  }

  /** The unlock timeout reopens selection and changes nothing else. */
  function UnlockStep(s: State): (r: State)
    ensures r.selectionAllowed && !r.unlockPending
    ensures r.tiles == s.tiles && r.colors == s.colors && r.winColor == s.winColor
  {
    s.(selectionAllowed := true, unlockPending := false)
  }

  lemma UnlockEffect(s: State)
    requires Inv(s) && s.unlockPending
    ensures var r := UnlockStep(s);
      r.selectionAllowed && r.(selectionAllowed := s.selectionAllowed, unlockPending := s.unlockPending) == s && Inv(r)
  {
  }

  /**
   * A winning click followed by the whole animation: once the new interval
   * has ticked over all fifteen tiles and the unlock timeout has fired, every
   * tile shows the win colour and selection is allowed again.
   */
  lemma WinAnimationCompletes(s: State, i: nat)
    requires Inv(s) && s.selectionAllowed && i < |s.tiles| && s.tiles[i].colour == s.winColor
    ensures var w := HandleClick(s, i);
      && |w.intervals| == |s.intervals| + 1
      && var r := UnlockStep(Ticks(w, |s.intervals|, TileCount));
      && r.selectionAllowed && Inv(r)
      && (forall j :: 0 <= j < TileCount ==> r.tiles[j].colour == s.winColor)
  {
    var w := HandleClick(s, i);
    HandleClickInv(s, i);
    TicksPaintPrefix(w, |s.intervals|, TileCount);
    UnlockEffect(Ticks(w, |s.intervals|, TileCount));
  }
}

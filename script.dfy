/**
 * The script's module-level state as one object. The fifteen tile elements are
 * a fixed array of `Tile` records that the handlers rewrite in place; the
 * palette, win colour, difficulty size, selection lock, displayed texts,
 * difficulty markers, listener count, paint-interval counters and pending
 * unlock are fields. Every input and timer callback is a method proved to
 * take the object from `Snapshot()` to the state that the matching function
 * of module Rules computes, keeping `Valid()`.
 */
module Script {
  import opened Colors
  import opened Rules

  class Game {
    /** The tile elements (`colorChoices`), created once. */
    const tiles: array<Tile>
    var colors: seq<string>
    var winColor: string
    var numberOfColors: nat
    var selectionAllowed: bool
    /** Text of the status message. */
    var message: string
    /** Background colour of the page header. */
    var header: string
    /** Text of the reset button. */
    var resetLabel: string
    /** Text that shows the colour to find. */
    var winColorText: string
    /** Whether each of the three difficulty buttons carries the "selected" marker. */
    var selected: seq<bool>
    /** Click listeners registered on every tile: one per `prepareColors` call. */
    var listeners: nat
    /** Counter of every paint interval started by a win; intervals are never cleared. */
    var intervals: seq<nat>
    /** Whether an unlock timeout is scheduled and has not fired yet. */
    var unlockPending: bool

    ghost function Snapshot(): State
      reads this, tiles
    {
      State(tiles[..], colors, winColor, numberOfColors, selectionAllowed, message, header,
            resetLabel, winColorText, selected, listeners, intervals, unlockPending)
    }

    ghost predicate Valid()
      reads this, tiles
    {
      tiles.Length == TileCount && Inv(Snapshot())
    }

    /**
     * The script's top-level code: fifteen tile elements, a first palette of
     * ten colours, its win colour, one listener per tile with the palette
     * shown, then the start-up loop that paints every tile. The message,
     * header, reset label and difficulty markers are the page's markup.
     */
    constructor (samples: seq<Rgb>, pick: nat, message: string, header: string, resetLabel: string, selected: seq<bool>)
      requires |samples| == 10 && pick < 10 && |selected| == 3
      ensures Valid() && fresh(tiles)
      ensures Snapshot() == Initial(samples, pick, message, header, resetLabel, selected)
    {
      numberOfColors := 15;
      selectionAllowed := true;
      tiles := new Tile[TileCount](_ => Tile("", true));
      var palette := GenerateRandomColors(10, samples);
      colors := palette;
      winColor := GetWinColor(palette, pick);
      winColorText := winColor;
      this.message := message;
      this.header := header;
      this.resetLabel := resetLabel;
      this.selected := selected;
      listeners := 0;
      intervals := [];
      unlockPending := false;
      new;
      assert tiles[..] == Blank();
      PrepareColors();
      PaintStartColors();
      InitialInv(samples, pick, message, header, resetLabel, selected);
    }

    /** `displayBlocks`: show the palette on the first tiles and hide the rest. */
    method DisplayBlocks()
      modifies tiles
      ensures tiles[..] == Displayed(old(tiles[..]), colors)
    {
      for i := 0 to tiles.Length
        invariant forall j :: 0 <= j < i ==> tiles[j] == Displayed(old(tiles[..]), colors)[j]
        invariant forall j :: i <= j < tiles.Length ==> tiles[j] == old(tiles[j])
      {
        if i < |colors| && colors[i] != "" {
          tiles[i] := Tile(colors[i], true);
        } else {
          tiles[i] := tiles[i].(visible := false);
        }
      }
    }

    /** The start-up loop that assigns `colors[i]` to every tile. */
    method PaintStartColors()
      modifies tiles
      ensures tiles[..] == Painted(old(tiles[..]), colors)
    {
      for i := 0 to tiles.Length
        invariant forall j :: 0 <= j < i ==> tiles[j] == Painted(old(tiles[..]), colors)[j]
        invariant forall j :: i <= j < tiles.Length ==> tiles[j] == old(tiles[j])
      {
        if i < |colors| {
          tiles[i] := tiles[i].(colour := colors[i]);
        }
      }
    }

    /** `prepareColors`: one more click listener on every tile, then `displayBlocks`. */
    method PrepareColors()
      modifies this, tiles
      ensures Snapshot() == old(Snapshot()).(listeners := old(listeners) + 1,
                                             tiles := Displayed(old(tiles[..]), colors))
    {
      listeners := listeners + 1;
      DisplayBlocks();
    }

    /** One run of the click listener of tile i. */
    method RunClickListener(i: nat)
      requires i < tiles.Length
      modifies this, tiles
      ensures Snapshot() == HandleClick(old(Snapshot()), i)
    {
      if selectionAllowed {
        var chosenColor := tiles[i].colour;
        if chosenColor == winColor {
          message := "Groovy.";
          header := winColor;
          selectionAllowed := false;
          intervals := intervals + [0];
          unlockPending := true;
          resetLabel := "Play Again?";
        } else {
          message := "Try again!";
          tiles[i] := tiles[i].(colour := Transparent);
        }
      }
    }

    /**
     * A click on tile i runs every listener registered on it, one after the
     * other; the outcome is that of a single run.
     */
    method Click(i: nat)
      requires Valid() && i < TileCount
      modifies this, tiles
      ensures Valid()
      ensures Snapshot() == HandleClick(old(Snapshot()), i)
    {
      var n := listeners;
      for j := 0 to n
        invariant Snapshot() == HandleClicks(old(Snapshot()), i, j)
      {
        RunClickListener(i);
      }
      WinColorIsEntry(old(Snapshot()));
      RepeatedHandlersActOnce(old(Snapshot()), i, n);
      HandleClickInv(old(Snapshot()), i);
    }

    /** `reset`: new texts, palette and win colour, one more listener, the palette shown. */
    method Reset(samples: seq<Rgb>, pick: nat)
      requires Valid() && |samples| == numberOfColors && pick < |samples|
      modifies this, tiles
      ensures Valid()
      ensures Snapshot() == ResetStep(old(Snapshot()), samples, pick)
    {
      if selectionAllowed {
        message := "Guess the color.";
        header := "black";
        resetLabel := "New Colors";
        colors := GenerateRandomColors(numberOfColors, samples);
        winColor := GetWinColor(colors, pick);
        winColorText := winColor;
        PrepareColors();
        DisplayBlocks();
        DisplayedIdempotent(old(tiles[..]), colors);
        assert tiles[..] == Displayed(old(tiles[..]), colors);
      }
      assert Snapshot() == ResetStep(old(Snapshot()), samples, pick);
      ResetInv(old(Snapshot()), samples, pick);
    }

    /** The reset button's listener. */
    method ResetButtonClick(samples: seq<Rgb>, pick: nat)
      requires Valid() && |samples| == numberOfColors && pick < |samples|
      modifies this, tiles
      ensures Valid()
      ensures Snapshot() == ResetStep(old(Snapshot()), samples, pick)
    {
      if selectionAllowed {
        Reset(samples, pick);
      }
    }

    /** The listener of difficulty button `button`, whose text is `buttonText`. */
    method DifficultyClick(button: nat, buttonText: string, samples: seq<Rgb>, pick: nat)
      requires Valid() && button < 3 && |samples| == SizeForLabel(buttonText) && pick < |samples|
      modifies this, tiles
      ensures Valid()
      ensures Snapshot() == DifficultyStep(old(Snapshot()), button, buttonText, samples, pick)
    {
      if selectionAllowed {
        selected := [false, false, false];
        selected := selected[button := true];
        assert selected == seq(3, j => j == button);
        numberOfColors := SizeForLabel(buttonText);
        Reset(samples, pick);
      }
    }

    /** One tick of paint interval k. */
    method Tick(k: nat)
      requires Valid() && k < |intervals|
      modifies this, tiles
      ensures Valid()
      ensures Snapshot() == TickStep(old(Snapshot()), k)
    {
      var counter := intervals[k];
      if counter < tiles.Length {
        tiles[counter] := tiles[counter].(colour := winColor);
        intervals := intervals[k := counter + 1];
      }
      TickEffect(old(Snapshot()), k);
    }

    /** The unlock timeout. */
    method Unlock()
      requires Valid() && unlockPending
      modifies this
      ensures Valid()
      ensures Snapshot() == UnlockStep(old(Snapshot()))
    {
      selectionAllowed := true;
      unlockPending := false;
      UnlockEffect(old(Snapshot()));
    }
  }
}

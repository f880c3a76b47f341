/** The tile map object of the game scene: a row-major grid of tile characters
    (' ' is empty, '0'..'9' select a wall sprite), the on-screen tile size, and the
    overlay toggle driven by key presses. */
module GameMaps {
  import Raster

  /** Keyboard keys as the input system reports them. */
  datatype Key =
    | NONE | F1 | F2 | F3 | F4 | F5 | F6 | F7 | F8 | F9 | F10 | F11 | F12
    | D1 | D2 | D3 | D4 | D5 | D6 | D7 | D8 | D9 | D10
    | TAB | ENTER | CAPS_LOCK | L_SHIFT | R_SHIFT | L_CTRL | R_CTRL
    | PAGE_UP | PAGEDOWN | BACK | INSERT | ESC | SPACE | L_ALT | R_ALT
    | A | B | C | D | E | F | G | H | I | J | K | L | M
    | N | O | P | Q | R | S | T | U | V | W | X | Y | Z

  /** Events the map observes: a key press, or any event of another type. */
  datatype Event = KeyDown(key: Key) | OtherEvent

  /** The toggle after one event: only pressing M flips it. */
  function Toggle(toggled: bool, e: Event): (t: bool)
    ensures t != toggled <==> e == KeyDown(M)
  {
    match e
    case KeyDown(M) => !toggled
    case _ => toggled
  }

  /** The toggle after a whole stream of events, in order. */
  function ToggleAll(toggled: bool, events: seq<Event>): bool
    decreases |events|
  {
    if events == [] then toggled else ToggleAll(Toggle(toggled, events[0]), events[1..])
  }

  /** How many of the events are presses of M. */
  function PressesOfM(events: seq<Event>): nat
    decreases |events|
  {
    if events == [] then 0
    else (if events[0] == KeyDown(M) then 1 else 0) + PressesOfM(events[1..])
  }

  /** After any stream of events the overlay is flipped exactly when M was pressed an odd number of times. */
  lemma {:induction false} ToggleAllParity(toggled: bool, events: seq<Event>)
    ensures ToggleAll(toggled, events) == (toggled != (PressesOfM(events) % 2 == 1))
    decreases |events|
  {
    if events != [] {
      ToggleAllParity(Toggle(toggled, events[0]), events[1..]);
    }
  }

  /** Two presses of M restore the original state. */
  lemma ToggleTwiceRestores(toggled: bool)
    ensures Toggle(Toggle(toggled, KeyDown(M)), KeyDown(M)) == toggled
  {
  }

  /** The on-screen size of one tile: the largest size whose `count` copies fit in `extent`. */
  function TileSize(extent: nat, count: nat): (size: nat)
    requires count > 0
    ensures size * count <= extent < size * count + count
  {
    extent / count
  }

  class GameMap {
    /** The tile characters, row by row. */
    const mapData: seq<char>
    /** Number of tile columns. */
    const xTiles: nat
    /** Number of tile rows. */
    const yTiles: nat
    /** Extent of the map on screen, in pixels. */
    var w: nat
    var h: nat
    /** Size of one tile on screen, in pixels. */
    var tileW: nat
    var tileH: nat
    /** Whether the map overlay is shown. */
    var toggled: bool

    /** The grid holds exactly one character per tile. */
    predicate Valid() {
      |mapData| == xTiles * yTiles
    }

    constructor (data: seq<char>, columns: nat, rows: nat)
      ensures mapData == data && xTiles == columns && yTiles == rows
      ensures w == 100 && h == 100 && tileW == 0 && tileH == 0 && !toggled
    {
      mapData, xTiles, yTiles := data, columns, rows;
      w, h := 100, 100;
      tileW, tileH := 0, 0;
      toggled := false;
    }

    /** Row `r` of the grid: its `xTiles` characters, left to right. */
    ghost function Row(r: nat): (row: seq<char>)
      requires Valid() && r < yTiles
      ensures |row| == xTiles
    {
      Raster.RowInBounds(r, xTiles, yTiles);
      mapData[Raster.Index(0, r, xTiles) .. Raster.Index(0, r, xTiles) + xTiles]
    }

    /** The flat position of tile (row, col); under the size invariant it is always in range
        and holds column `col` of row `row`. */
    function TileIndex(row: nat, col: nat): (k: nat)
      requires Valid() && row < yTiles && col < xTiles
      ensures k < |mapData|
      ensures mapData[k] == Row(row)[col]
    {
      Raster.RowInBounds(row, xTiles, yTiles);
      Raster.Index(col, row, xTiles)
    }

    /** is_empty: tile (row, col) is a space. */
    function IsEmpty(row: nat, col: nat): (empty: bool)
      requires Valid() && row < yTiles && col < xTiles
      ensures empty <==> Row(row)[col] == ' '
    {
      mapData[TileIndex(row, col)] == ' '
    }

    /** get_sprite_index: the tile character minus '0'; digit tiles select sprites 0..9. */
    function SpriteIndex(row: nat, col: nat): (index: int)
      requires Valid() && row < yTiles && col < xTiles
      ensures index == Row(row)[col] as int - '0' as int
      ensures '0' <= Row(row)[col] <= '9' <==> 0 <= index <= 9
    {
      mapData[TileIndex(row, col)] as int - '0' as int
    }

    /** update: recompute the on-screen tile size from the map extent; nothing else changes. */
    method Update(dt: nat)
      requires xTiles > 0 && yTiles > 0
      modifies this`tileW, this`tileH
      ensures tileW == TileSize(w, xTiles) && tileH == TileSize(h, yTiles)
      ensures tileW * xTiles <= w < tileW * xTiles + xTiles
      ensures tileH * yTiles <= h < tileH * yTiles + yTiles
    {
      tileW := w / xTiles;
      tileH := h / yTiles;
    }

    /** on_notify: a key-down event for M flips the overlay toggle; every other event leaves it. */
    method OnNotify(e: Event)
      modifies this`toggled
      ensures toggled == Toggle(old(toggled), e)
      ensures toggled != old(toggled) <==> e == KeyDown(M)
    {
      match e {
        case KeyDown(key) =>
          if key == M {
            toggled := !toggled;
          }
        case OtherEvent =>
      }
    }
  }
}

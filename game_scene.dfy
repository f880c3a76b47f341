/** The software framebuffer of the game scene and its drawing primitives: clearing,
    bounds-checked pixel writes, clipped rectangles and the 2-D map overlay. */
module Scenes {
  import opened Raster
  import GameMaps

  class GameScene {
    /** Width and height of the frame texture, in pixels. */
    const width: nat
    const height: nat
    /** The map the scene draws. */
    const gameMap: GameMaps.GameMap
    /** The frame, row-major: pixel (x, y) is at Index(x, y, width). */
    var pixelBuffer: array<bv32>
    /** Size of one map tile in the 2-D overlay, in pixels. */
    var rectW: nat
    var rectH: nat

    constructor (w: nat, h: nat, m: GameMaps.GameMap)
      ensures width == w && height == h && gameMap == m
      ensures fresh(pixelBuffer) && pixelBuffer.Length == 0
      ensures rectW == 0 && rectH == 0
    {
      width, height, gameMap := w, h, m;
      pixelBuffer := new bv32[0];
      rectW, rectH := 0, 0;
    }

    /** The buffer has one pixel per texel of the frame texture. */
    ghost predicate Sized()
      reads this
    {
      pixelBuffer.Length == width * height
    }

    /** clear: replace the buffer by a width * height one filled with `color`. */
    method Clear(color: bv32)
      modifies this`pixelBuffer
      ensures fresh(pixelBuffer) && Sized()
      ensures forall k :: 0 <= k < pixelBuffer.Length ==> pixelBuffer[k] == color
    {
      pixelBuffer := new bv32[width * height](_ => color);
    }

    /** set_pixel: write pixel (x, y) when the buffer is sized and (x, y) is inside the
        frame; otherwise do nothing. Exactly one pixel can change. */
    method SetPixel(x: nat, y: nat, color: bv32)
      modifies pixelBuffer
      ensures forall k :: 0 <= k < pixelBuffer.Length ==>
        pixelBuffer[k] == if Sized() && x < width && y < height && k == Index(x, y, width)
                          then color else old(pixelBuffer[k])
    {
      if pixelBuffer.Length == width * height && x < width && y < height {
        IndexInBounds(x, y, width, height);
        pixelBuffer[Index(x, y, width)] := color;
      }
    }

    /** draw_rectangle: paint every pixel of the rectangle at (rx, ry) of size rw by rh
        that falls inside the frame; pixels outside the frame are skipped one by one. */
    method DrawRectangle(rx: nat, ry: nat, rw: nat, rh: nat, color: bv32)
      modifies pixelBuffer
      ensures forall k :: 0 <= k < pixelBuffer.Length ==>
        pixelBuffer[k] == if Sized() && InRect(XOf(k, width), YOf(k, width), rx, ry, rw, rh)
                          then color else old(pixelBuffer[k])
    {
      var currH := 0;
      while currH < rh
        invariant currH <= rh
        invariant forall k :: 0 <= k < pixelBuffer.Length ==>
          pixelBuffer[k] == if Sized() && InRect(XOf(k, width), YOf(k, width), rx, ry, rw, currH)
                            then color else old(pixelBuffer[k])
      {
        var currW := 0;
        while currW < rw
          invariant currW <= rw
          invariant forall k :: 0 <= k < pixelBuffer.Length ==>
            pixelBuffer[k] == if Sized() && (InRect(XOf(k, width), YOf(k, width), rx, ry, rw, currH)
                                             || InRect(XOf(k, width), YOf(k, width), rx, ry + currH, currW, 1))
                              then color else old(pixelBuffer[k])
        {
          var x := rx + currW;
          var y := ry + currH;
          if x < width && y < height {
            SetPixel(x, y, color);
          }
          forall k | 0 <= k < pixelBuffer.Length && Sized() {
            CellOfIndex(k, width, height, x, y);
          }
          currW := currW + 1;
        }
        currH := currH + 1;
      }
    }

    /** The colour pixel (x, y) has once the overlay has drawn every tile before (row, col)
        in row-major order, given that it had colour `prev` before the overlay. Pixel (x, y)
        belongs to tile (y / rectH, x / rectW); an empty tile, or no tile, leaves it as it was. */
    ghost function OverlayUpTo(x: nat, y: nat, prev: bv32, wallColor: int -> bv32, row: nat, col: nat): bv32
      reads this
      requires gameMap.Valid()
    {
      if rectW > 0 && rectH > 0 then
        var tileRow, tileCol := y / rectH, x / rectW;
        if tileRow < gameMap.yTiles && tileCol < gameMap.xTiles
           && (tileRow < row || (tileRow == row && tileCol < col))
           && !gameMap.IsEmpty(tileRow, tileCol)
        then wallColor(gameMap.SpriteIndex(tileRow, tileCol))
        else prev
      else prev
    }

    /** The colour pixel (x, y) has after the whole map overlay is drawn over colour `prev`. */
    ghost function MapOverlay(x: nat, y: nat, prev: bv32, wallColor: int -> bv32): bv32
      reads this
      requires gameMap.Valid()
    {
      OverlayUpTo(x, y, prev, wallColor, gameMap.yTiles, 0)
    }

    /** The overlay fills the rectW by rectH block of each non-empty tile (row, col), whose
        corner is (col * rectW, row * rectH), with that tile's wall colour, and leaves the
        block of an empty tile untouched. */
    lemma OverlayBlock(row: nat, col: nat, i: nat, j: nat, prev: bv32, wallColor: int -> bv32)
      requires gameMap.Valid() && row < gameMap.yTiles && col < gameMap.xTiles
      requires i < rectW && j < rectH
      ensures MapOverlay(col * rectW + i, row * rectH + j, prev, wallColor)
           == if gameMap.IsEmpty(row, col) then prev
              else wallColor(gameMap.SpriteIndex(row, col))
    {
      InBlock(col * rectW + i, col, rectW);
      InBlock(row * rectH + j, row, rectH);
    }

    /** Drawing tile (row, col) changes the overlay only inside that tile's block, and only
        when the tile is not empty. */
    lemma OverlayStep(x: nat, y: nat, prev: bv32, wallColor: int -> bv32, row: nat, col: nat)
      requires gameMap.Valid() && row < gameMap.yTiles && col < gameMap.xTiles
      ensures OverlayUpTo(x, y, prev, wallColor, row, col + 1)
           == if InRect(x, y, col * rectW, row * rectH, rectW, rectH) && !gameMap.IsEmpty(row, col)
              then wallColor(gameMap.SpriteIndex(row, col))
              else OverlayUpTo(x, y, prev, wallColor, row, col)
    {
      if rectW > 0 && rectH > 0 {
        InBlock(x, col, rectW);
        InBlock(y, row, rectH);
      }
    }

    /** Finishing a row of tiles is starting the next one. */
    lemma OverlayNextRow(x: nat, y: nat, prev: bv32, wallColor: int -> bv32, row: nat)
      requires gameMap.Valid()
      ensures OverlayUpTo(x, y, prev, wallColor, row, gameMap.xTiles)
           == OverlayUpTo(x, y, prev, wallColor, row + 1, 0)
    {
    }

    /** draw_map: draw one rectangle per non-empty map tile, in the colour of the top-left
        texel of that tile's wall sprite (`wallColor` of its sprite index). */
    method DrawMap(wallColor: int -> bv32)
      requires gameMap.Valid()
      modifies pixelBuffer
      ensures forall k :: 0 <= k < pixelBuffer.Length ==>
        pixelBuffer[k] == if Sized() then MapOverlay(XOf(k, width), YOf(k, width), old(pixelBuffer[k]), wallColor)
                          else old(pixelBuffer[k])
    {
      ghost var orig := pixelBuffer[..];
      ghost var sized := Sized();
      var row := 0;
      while row < gameMap.yTiles
        invariant row <= gameMap.yTiles
        invariant |orig| == pixelBuffer.Length && sized == Sized()
        invariant forall k :: 0 <= k < |orig| ==>
          pixelBuffer[k] == if sized then OverlayUpTo(XOf(k, width), YOf(k, width), orig[k], wallColor, row, 0) else orig[k]
      {
        var col := 0;
        while col < gameMap.xTiles
          invariant col <= gameMap.xTiles
          invariant |orig| == pixelBuffer.Length && sized == Sized()
          invariant forall k :: 0 <= k < |orig| ==>
            pixelBuffer[k] == if sized then OverlayUpTo(XOf(k, width), YOf(k, width), orig[k], wallColor, row, col) else orig[k]
        {
          ghost var before := pixelBuffer[..];
          if !gameMap.IsEmpty(row, col) {
            var rectY := row * rectH;
            var rectX := col * rectW;
            var textureIndex := gameMap.SpriteIndex(row, col);
            DrawRectangle(rectX, rectY, rectW, rectH, wallColor(textureIndex));
          }
          TileDrawn(orig, before, pixelBuffer[..], sized, wallColor, row, col);
          col := col + 1;
        }
        RowDrawn(orig, pixelBuffer[..], sized, wallColor, row);
        row := row + 1;
      }
    }

    /** One pass of draw_map's inner loop, on the buffer's contents: if the buffer held the
        overlay of the tiles before (row, col) and then tile (row, col) was drawn, it now
        holds the overlay of the tiles up to and including (row, col). */
    lemma TileDrawn(orig: seq<bv32>, before: seq<bv32>, after: seq<bv32>, sized: bool,
                    wallColor: int -> bv32, row: nat, col: nat)
      requires gameMap.Valid() && row < gameMap.yTiles && col < gameMap.xTiles
      requires |before| == |after| == |orig| && (sized ==> |orig| == width * height)
      requires forall k :: 0 <= k < |before| ==>
        before[k] == if sized then OverlayUpTo(XOf(k, width), YOf(k, width), orig[k], wallColor, row, col) else orig[k]
      requires forall k :: 0 <= k < |after| ==>
        after[k] == if sized && !gameMap.IsEmpty(row, col) && InRect(XOf(k, width), YOf(k, width), col * rectW, row * rectH, rectW, rectH)
                    then wallColor(gameMap.SpriteIndex(row, col)) else before[k]
      ensures forall k :: 0 <= k < |after| ==>
        after[k] == if sized then OverlayUpTo(XOf(k, width), YOf(k, width), orig[k], wallColor, row, col + 1) else orig[k]
    {
      forall k | 0 <= k < |after| && sized {
        OverlayStep(XOf(k, width), YOf(k, width), orig[k], wallColor, row, col);
      }
    }

    /** Finishing a row of tiles leaves the buffer ready for the next row. */
    lemma RowDrawn(orig: seq<bv32>, buffer: seq<bv32>, sized: bool, wallColor: int -> bv32, row: nat)
      requires gameMap.Valid()
      requires |buffer| == |orig| && (sized ==> |orig| == width * height)
      requires forall k :: 0 <= k < |buffer| ==>
        buffer[k] == if sized then OverlayUpTo(XOf(k, width), YOf(k, width), orig[k], wallColor, row, gameMap.xTiles) else orig[k]
      ensures forall k :: 0 <= k < |buffer| ==>
        buffer[k] == if sized then OverlayUpTo(XOf(k, width), YOf(k, width), orig[k], wallColor, row + 1, 0) else orig[k]
    {
      forall k | 0 <= k < |buffer| && sized {
        OverlayNextRow(XOf(k, width), YOf(k, width), orig[k], wallColor, row);
      }
    }
  }
}

/**
 * The ToneMatrix class of the modular version: a 16 x 16 grid on a canvas, the drag-paint
 * `arming` latch driven by mouse and touch events, and the share field that shows either the
 * share URL of the current tune or the page's own URL.
 */
module App {
  import opened Common
  import opened Timeline
  import Util
  import Uri
  import Savestate
  import Base64
  import GridState
  import SearchParams

  /** A position on the canvas, in canvas pixels. */
  datatype Point = Point(x: real, y: real)

  /** The grid is 16 tiles wide and 16 tiles high. */
  const Width: nat := 16
  const Height: nat := 16

  /**
   * The value the share field takes for a share code: the page URL followed by the query
   * `v=1&d=<code>` as URLSearchParams serializes it, or the page URL alone for an empty code.
   */
  function SharingURL(originalURL: string, code: string): (url: string)
    requires Uri.IsAscii(code)
    ensures |url| >= |originalURL| && url[..|originalURL|] == originalURL
    ensures url == originalURL <==> code == ""
  {
    if code == "" then originalURL
    else originalURL + "?v=1&d=" + Uri.FormUrlEncode(code)
  }

  /**
   * The page opened at a share URL reads the code back as its `d` value, and the page URL
   * alone carries no `d` value.
   */
  lemma SharingURLCarriesCode(originalURL: string, code: string)
    requires SearchParams.IsPageURL(originalURL) && Uri.IsAscii(code)
    ensures SearchParams.SearchParam(SharingURL(originalURL, code), "d") == (if code == "" then None else Some(code))
  {
    if code == "" {
      SearchParams.PageURLHasNoParam(originalURL, "d");
    } else {
      SearchParams.ShareLinkParam(originalURL, code);
    }
  }

  lemma ShareCodeIsAscii(s: seq<bool>)
    requires |s| % 8 == 0
    ensures Uri.IsAscii(Savestate.ShareCode(s))
  {
    if Savestate.AnyArmed(s) {
      Savestate.BtoaIsAscii(Savestate.PackBits(s));
      Uri.EncodeURIComponentIsAscii(Base64.Btoa(Savestate.PackBits(s)));
    }
  }

  /**
   * The share field after a change to the grid: the share URL of the grid's share code, or
   * the page URL alone exactly when no tile is armed.
   */
  function ShareField(originalURL: string, data: seq<Cell>): string
    requires |data| % 8 == 0
  {
    ShareCodeIsAscii(ArmedStates(data));
    SharingURL(originalURL, Savestate.ShareCode(ArmedStates(data)))
  }

  /**
   * The share field always starts with the page URL, and it is the page URL alone exactly
   * when no tile is armed.
   */
  lemma ShareFieldIsPageURLIffEmpty(originalURL: string, data: seq<Cell>)
    requires |data| % 8 == 0
    ensures |ShareField(originalURL, data)| >= |originalURL|
    ensures ShareField(originalURL, data)[..|originalURL|] == originalURL
    ensures ShareField(originalURL, data) == originalURL <==> forall i :: 0 <= i < |data| ==> !data[i].Armed?
  {
    ShareCodeIsAscii(ArmedStates(data));
    Savestate.CellsShareCodeEmpty(data);
  }

  /**
   * `after` is `before` with every cell of `cells` set to `a`, where arming a cell that was
   * not armed succeeds only when the player accepts notes, and every other cell unchanged.
   */
  ghost predicate Painted(before: seq<Cell>, after: seq<Cell>, cells: set<int>, a: bool, accepting: bool)
  {
    && |after| == |before|
    && forall i :: 0 <= i < |after| ==>
         if i in cells then after[i].Armed? == (a && (before[i].Armed? || accepting))
         else after[i] == before[i]
  }

  /** Painting the same value twice paints the union of the two cell sets. */
  lemma PaintedTwice(d0: seq<Cell>, d1: seq<Cell>, d2: seq<Cell>, c1: set<int>, c2: set<int>, a: bool, accepting: bool)
    requires Painted(d0, d1, c1, a, accepting) && Painted(d1, d2, c2, a, accepting)
    ensures Painted(d0, d2, c1 + c2, a, accepting)
  {
  }

  /**
   * The armed states a page opened with query value `d` starts with: those of the loaded code,
   * or none armed when there is no `d`, it is empty, or it does not decode.
   */
  function InitialStates(d: Option<string>): (s: seq<bool>)
    ensures |s| == Width * Height
  {
    if d.Some? && d.value != "" && Savestate.LoadBits(d.value, Width * Height).Some?
    then Savestate.LoadBits(d.value, Width * Height).value
    else seq(Width * Height, i => false)
  }

  class ToneMatrix {
    const grid: GridState.Grid
    /** The canvas size in canvas pixels. */
    const canvasWidth: real
    const canvasHeight: real
    /** The page URL without its query string. */
    const originalURL: string
    var mouseX: real
    var mouseY: real
    /** The paint value of the current stroke: None until the stroke's first click. */
    var arming: Option<bool>
    /** The value of the share input element. */
    var clipboard: string

    ghost predicate Valid()
      reads this, grid, grid.player, grid.player.transport
    {
      && grid.Valid() && grid.width == Width && grid.height == Height
      && canvasWidth > 0.0 && canvasHeight > 0.0
    }

    /** The tile under canvas point p, as pixelCoordsToTileCoords finds it. */
    function TileAt(p: Point): Option<Util.Coord>
      requires canvasWidth > 0.0 && canvasHeight > 0.0
    {
      Util.PixelCoordsToTileCoords(p.x, p.y, Width, Height, canvasWidth, canvasHeight)
    }

    predicate OnGrid(p: Point)
    {
      canvasWidth > 0.0 && canvasHeight > 0.0 && TileAt(p).Some?
    }

    predicate AllOnGrid(points: seq<Point>)
    {
      forall k :: 0 <= k < |points| ==> OnGrid(points[k])
    }

    /** The index of the cell under an on-grid point. */
    function CellAt(p: Point): (k: int)
      requires OnGrid(p)
      ensures 0 <= k < Width * Height
    {
      var t := TileAt(p).value;
      Util.IndexInGrid(t.x, t.y, Width, Height);
      Util.CoordToIndex(t.x, t.y, Width)
    }

    /** The cells under a sequence of on-grid points. */
    function CellsOf(points: seq<Point>): (cells: set<int>)
      requires AllOnGrid(points)
    {
      set k | 0 <= k < |points| :: CellAt(points[k])
    }

    lemma CellsOfPrefix(points: seq<Point>, n: nat)
      requires AllOnGrid(points) && n < |points|
      ensures AllOnGrid(points[..n]) && AllOnGrid(points[..n + 1])
      ensures CellsOf(points[..n + 1]) == CellsOf(points[..n]) + {CellAt(points[n])}
    {
      assert forall k :: 0 <= k < n ==> points[..n][k] == points[k];
      assert forall k :: 0 <= k < n + 1 ==> points[..n + 1][k] == points[k];
      assert AllOnGrid(points[..n]);
      assert AllOnGrid(points[..n + 1]);
      assert points[..n + 1][n] == points[n];
    }

    lemma CellsOfCons(first: Point, rest: seq<Point>)
      requires OnGrid(first) && AllOnGrid(rest)
      ensures AllOnGrid([first] + rest)
      ensures CellsOf([first] + rest) == {CellAt(first)} + CellsOf(rest)
    {
      var ps := [first] + rest;
      assert forall k :: 0 < k < |ps| ==> ps[k] == rest[k - 1];
      assert AllOnGrid(ps);
      forall i | i in CellsOf(rest) ensures i in CellsOf(ps) {
        var k :| 0 <= k < |rest| && CellAt(rest[k]) == i;
        assert ps[k + 1] == rest[k];
      }
      assert ps[0] == first;
    }

    /** Whether the tile under an on-grid point is armed: getTileValue of that tile. */
    function ArmedAt(p: Point): bool
      reads grid
      requires OnGrid(p)
    {
      IsArmedAt(grid.data, CellAt(p))
    }

    /**
     * The constructor: a 16 x 16 grid, the mouse off the canvas, and the tune of the query
     * value `d` loaded when it is present and non-empty, with the share field showing it.
     */
    constructor(canvasWidth: real, canvasHeight: real, originalURL: string, d: Option<string>)
      requires canvasWidth > 0.0 && canvasHeight > 0.0
      requires d.Some? ==> Uri.IsAscii(d.value)
      ensures Valid() && fresh(grid) && fresh(grid.player) && fresh(grid.player.transport)
      ensures this.canvasWidth == canvasWidth && this.canvasHeight == canvasHeight
      ensures this.originalURL == originalURL
      ensures mouseX == -1.0 && mouseY == -1.0 && arming == None
      ensures ArmedStates(grid.data) == InitialStates(d)
      ensures clipboard == SharingURL(originalURL, if d.Some? then d.value else "")
    {
      this.canvasWidth := canvasWidth;
      this.canvasHeight := canvasHeight;
      this.originalURL := originalURL;
      var transport := new Transport();
      grid := new GridState.Grid(Width, Height, transport);
      mouseX := -1.0;
      mouseY := -1.0;
      arming := None;
      clipboard := originalURL;
      new;
      if d.Some? && d.value != "" {
        grid.FromBase64(d.value);
        clipboard := SharingURL(originalURL, d.value);
      }
    }

    /**
     * canvasClick: the first click of a stroke fixes `arming` to the opposite of the tile under
     * it; the tile is set to `arming` (it stays unarmed when the scheduler refuses the note);
     * then the share field shows the share URL of the grid, or the page URL when no tile is armed.
     */
    method CanvasClick(p: Point)
      requires Valid() && OnGrid(p)
      modifies this, grid, grid.player.transport
      ensures Valid() && mouseX == old(mouseX) && mouseY == old(mouseY)
      ensures old(arming).Some? ==> arming == old(arming)
      ensures old(arming).None? ==> arming == Some(!old(ArmedAt(p)))
      ensures arming.Some? && Painted(old(grid.data), grid.data, {CellAt(p)}, arming.value, grid.player.accepting)
      ensures clipboard == ShareField(originalURL, grid.data)
    {
      PaintTile(p);
      ShowShareCode();
    }

    /** The drawing half of canvasClick: the arming latch and setTileValue. */
    method PaintTile(p: Point)
      requires Valid() && OnGrid(p)
      modifies this, grid, grid.player.transport
      ensures Valid() && mouseX == old(mouseX) && mouseY == old(mouseY) && clipboard == old(clipboard)
      ensures old(arming).Some? ==> arming == old(arming)
      ensures old(arming).None? ==> arming == Some(!old(ArmedAt(p)))
      ensures arming.Some? && Painted(old(grid.data), grid.data, {CellAt(p)}, arming.value, grid.player.accepting)
    {
      var t := TileAt(p).value;
      if arming.None? {
        arming := Some(!grid.TileValue(t.x, t.y));
      }
      grid.SetTileValue(t.x, t.y, arming.value);
    }

    /** The sharing half of canvasClick: the share URL of a non-empty share code, else the page URL. */
    method ShowShareCode()
      requires Valid()
      modifies this`clipboard
      ensures clipboard == ShareField(originalURL, grid.data)
    {
      var code := grid.ToBase64();
      ShareCodeIsAscii(ArmedStates(grid.data));
      if code != "" {
        SetSharingURL(code);
      } else {
        ResetSharingURL();
      }
    }

    /** setSharingURL: the share field shows the page URL with the query holding the code. */
    method SetSharingURL(code: string)
      requires Uri.IsAscii(code) && code != ""
      modifies this`clipboard
      ensures clipboard == SharingURL(originalURL, code) && clipboard != originalURL
    {
      clipboard := originalURL + "?v=1&d=" + Uri.FormUrlEncode(code);
    }

    /** resetSharingURL: the share field shows the page URL alone. */
    method ResetSharingURL()
      modifies this`clipboard
      ensures clipboard == originalURL
    {
      clipboard := originalURL;
    }

    /** mousedown: a new stroke begins at p. */
    method MouseDown(p: Point)
      requires Valid() && OnGrid(p)
      modifies this, grid, grid.player.transport
      ensures Valid() && mouseX == p.x && mouseY == p.y
      ensures arming == Some(!old(ArmedAt(p)))
      ensures Painted(old(grid.data), grid.data, {CellAt(p)}, arming.value, grid.player.accepting)
      ensures clipboard == ShareField(originalURL, grid.data)
    {
      mouseX, mouseY := p.x, p.y;
      arming := None;
      CanvasClick(p);
    }

    /** mousemove: the mouse position follows p, and the stroke paints only while the left button alone is held. */
    method MouseMove(p: Point, buttons: int)
      requires Valid() && (buttons == 1 ==> OnGrid(p))
      modifies this, grid, grid.player.transport
      ensures Valid() && mouseX == p.x && mouseY == p.y
      ensures buttons != 1 ==> arming == old(arming) && grid.data == old(grid.data)
                               && clipboard == old(clipboard)
                               && grid.player.transport.events == old(grid.player.transport.events)
      ensures buttons == 1 ==>
                && (old(arming).Some? ==> arming == old(arming))
                && (old(arming).None? ==> arming == Some(!old(ArmedAt(p))))
                && arming.Some? && Painted(old(grid.data), grid.data, {CellAt(p)}, arming.value, grid.player.accepting)
                && clipboard == ShareField(originalURL, grid.data)
    {
      mouseX, mouseY := p.x, p.y;
      if buttons != 1 {
        return;
      }
      CanvasClick(p);
    }

    /** resetCanvasMousePosition: the mouse is off the canvas, at (-1, -1), which is on no tile. */
    method ResetCanvasMousePosition()
      requires Valid()
      modifies this
      ensures Valid() && mouseX == -1.0 && mouseY == -1.0
      ensures !OnGrid(Point(mouseX, mouseY))
      ensures arming == old(arming) && clipboard == old(clipboard)
    {
      mouseX, mouseY := -1.0, -1.0;
      Util.NegativePixelIsOffGrid(-1.0, -1.0, Width, Height, canvasWidth, canvasHeight);
    }

    /** mouseleave: only the mouse position is reset. */
    method MouseLeave()
      requires Valid()
      modifies this
      ensures Valid() && mouseX == -1.0 && mouseY == -1.0
      ensures arming == old(arming) && clipboard == old(clipboard)
    {
      ResetCanvasMousePosition();
    }

    /** touchend: only the mouse position is reset. */
    method TouchEnd()
      requires Valid()
      modifies this
      ensures Valid() && mouseX == -1.0 && mouseY == -1.0
      ensures arming == old(arming) && clipboard == old(clipboard)
    {
      ResetCanvasMousePosition();
    }

    /**
     * The loop of touchstart and touchmove: every touch in order is clicked. Every touched
     * cell is painted with the stroke's value and no other cell changes; the mouse ends at
     * the last touch.
     */
    method ClickAll(points: seq<Point>)
      requires Valid() && AllOnGrid(points)
      modifies this, grid, grid.player.transport
      ensures Valid()
      ensures old(arming).Some? ==> arming == old(arming)
      ensures points != [] && old(arming).None? ==> arming == Some(!IsArmedAt(old(grid.data), CellAt(points[0])))
      ensures points != [] ==>
                && arming.Some?
                && Painted(old(grid.data), grid.data, CellsOf(points), arming.value, grid.player.accepting)
                && mouseX == points[|points| - 1].x && mouseY == points[|points| - 1].y
      ensures points == [] ==>
                && arming == old(arming) && mouseX == old(mouseX) && mouseY == old(mouseY)
                && clipboard == old(clipboard) && grid.data == old(grid.data)
    {
      if points == [] {
        return;
      }
      ClickPoint(points[0]);
      if |points| == 1 {
        assert points == [points[0]] + [];
        assert CellsOf(points) == {CellAt(points[0])};
        return;
      }
      ghost var afterFirst := grid.data;
      ghost var a := arming.value;
      ClickRest(points[1..]);
      CellsOfCons(points[0], points[1..]);
      assert [points[0]] + points[1..] == points;
      PaintedTwice(old(grid.data), afterFirst, grid.data, {CellAt(points[0])}, CellsOf(points[1..]),
                   a, grid.player.accepting);
    }

    /** One step of the touch loop: the mouse moves to the touch, which is clicked. */
    method ClickPoint(p: Point)
      requires Valid() && OnGrid(p)
      modifies this, grid, grid.player.transport
      ensures Valid() && mouseX == p.x && mouseY == p.y
      ensures old(arming).Some? ==> arming == old(arming)
      ensures old(arming).None? ==> arming == Some(!old(ArmedAt(p)))
      ensures arming.Some? && Painted(old(grid.data), grid.data, {CellAt(p)}, arming.value, grid.player.accepting)
    {
      mouseX, mouseY := p.x, p.y;
      CanvasClick(p);
    }

    /** The touch loop after its first touch, when the stroke's value is fixed. */
    method ClickRest(points: seq<Point>)
      requires Valid() && AllOnGrid(points) && points != [] && arming.Some?
      modifies this, grid, grid.player.transport
      ensures Valid() && arming == old(arming)
      ensures Painted(old(grid.data), grid.data, CellsOf(points), arming.value, grid.player.accepting)
      ensures mouseX == points[|points| - 1].x && mouseY == points[|points| - 1].y
    {
      ghost var a := arming.value;
      ghost var start := grid.data;
      var n := 0;
      while n < |points|
        invariant 0 <= n <= |points| && Valid() && AllOnGrid(points[..n])
        invariant arming == Some(a)
        invariant Painted(start, grid.data, CellsOf(points[..n]), a, grid.player.accepting)
        invariant n > 0 ==> mouseX == points[n - 1].x
        invariant n > 0 ==> mouseY == points[n - 1].y
      {
        CellsOfPrefix(points, n);
        ghost var before := grid.data;
        ClickPoint(points[n]);
        PaintedTwice(start, before, grid.data, CellsOf(points[..n]), {CellAt(points[n])}, a, grid.player.accepting);
        n := n + 1;
      }
      assert points[..|points|] == points;
    }

    /** touchstart: a single touch begins a new stroke; each touch is then clicked in turn. */
    method TouchStart(touches: seq<Point>)
      requires Valid() && AllOnGrid(touches)
      modifies this, grid, grid.player.transport
      ensures Valid()
      ensures |touches| == 1 ==> arming == Some(!old(ArmedAt(touches[0])))
      ensures |touches| != 1 && old(arming).Some? ==> arming == old(arming)
      ensures touches != [] ==>
                arming.Some? && Painted(old(grid.data), grid.data, CellsOf(touches), arming.value, grid.player.accepting)
      ensures touches == [] ==> grid.data == old(grid.data) && arming == old(arming)
    {
      if |touches| == 1 {
        arming := None;
      }
      ClickAll(touches);
    }

    /** touchmove: each touch is clicked in turn, continuing the current stroke. */
    method TouchMove(touches: seq<Point>)
      requires Valid() && AllOnGrid(touches)
      modifies this, grid, grid.player.transport
      ensures Valid()
      ensures old(arming).Some? ==> arming == old(arming)
      ensures touches != [] ==>
                arming.Some? && Painted(old(grid.data), grid.data, CellsOf(touches), arming.value, grid.player.accepting)
      ensures touches == [] ==> grid.data == old(grid.data) && arming == old(arming)
    {
      ClickAll(touches);
    }

    /** clear: every tile unarmed, every Transport event cancelled, and the share field reset. */
    method Clear()
      requires Valid()
      modifies this, grid, grid.player.transport
      ensures Valid()
      ensures grid.data == seq(Width * Height, i => Unarmed)
      ensures grid.player.transport.events == map[]
      ensures clipboard == originalURL
      ensures arming == old(arming) && mouseX == old(mouseX) && mouseY == old(mouseY)
    {
      grid.ClearAllTiles();
      grid.player.transport.Cancel();
      ResetSharingURL();
    }
  }

  /**
   * A drag with the left button: mousedown at `first`, then mousemove with the button held
   * over `rest`. Every cell of the stroke is painted with the value the first click chose;
   * when the player accepts notes, they all end in that state.
   */
  method PaintStroke(tm: ToneMatrix, first: Point, rest: seq<Point>)
    requires tm.Valid() && tm.OnGrid(first) && tm.AllOnGrid(rest)
    modifies tm, tm.grid, tm.grid.player.transport
    ensures tm.Valid() && tm.AllOnGrid([first] + rest)
    ensures tm.arming == Some(!old(tm.ArmedAt(first)))
    ensures Painted(old(tm.grid.data), tm.grid.data, tm.CellsOf([first] + rest), tm.arming.value,
                    tm.grid.player.accepting)
    ensures tm.grid.player.accepting ==>
              forall i :: i in tm.CellsOf([first] + rest) ==> tm.grid.data[i].Armed? == tm.arming.value
  {
    tm.MouseDown(first);
    ghost var afterDown := tm.grid.data;
    DragOver(tm, rest);
    tm.CellsOfCons(first, rest);
    PaintedTwice(old(tm.grid.data), afterDown, tm.grid.data, {tm.CellAt(first)}, tm.CellsOf(rest),
                 tm.arming.value, tm.grid.player.accepting);
  }

  /** mousemove with the left button held over each point in turn, during a stroke. */
  method DragOver(tm: ToneMatrix, rest: seq<Point>)
    requires tm.Valid() && tm.AllOnGrid(rest) && tm.arming.Some?
    modifies tm, tm.grid, tm.grid.player.transport
    ensures tm.Valid() && tm.arming == old(tm.arming)
    ensures Painted(old(tm.grid.data), tm.grid.data, tm.CellsOf(rest), tm.arming.value, tm.grid.player.accepting)
  {
    ghost var a := tm.arming.value;
    ghost var start := tm.grid.data;
    var k := 0;
    while k < |rest|
      invariant 0 <= k <= |rest| && tm.Valid() && tm.AllOnGrid(rest[..k])
      invariant tm.arming == Some(a)
      invariant Painted(start, tm.grid.data, tm.CellsOf(rest[..k]), a, tm.grid.player.accepting)
    {
      DragStep(tm, rest, k, start, a);
      k := k + 1;
    }
    assert rest[..|rest|] == rest;
  }

  /** Point k of the drag: mousemove with the button held extends the painted cells by its cell. */
  method DragStep(tm: ToneMatrix, rest: seq<Point>, k: nat, ghost start: seq<Cell>, ghost a: bool)
    requires tm.Valid() && tm.AllOnGrid(rest) && k < |rest| && tm.AllOnGrid(rest[..k])
    requires tm.arming == Some(a) && Painted(start, tm.grid.data, tm.CellsOf(rest[..k]), a, tm.grid.player.accepting)
    modifies tm, tm.grid, tm.grid.player.transport
    ensures tm.Valid() && tm.arming == Some(a) && tm.AllOnGrid(rest[..k + 1])
    ensures Painted(start, tm.grid.data, tm.CellsOf(rest[..k + 1]), a, tm.grid.player.accepting)
  {
    tm.CellsOfPrefix(rest, k);
    ghost var before := tm.grid.data;
    tm.MouseMove(rest[k], 1);
    PaintedTwice(start, before, tm.grid.data, tm.CellsOf(rest[..k]), {tm.CellAt(rest[k])},
                 a, tm.grid.player.accepting);
  }

  /**
   * Opening the URL the share field shows in a fresh page, which reads its `d` value with
   * URLSearchParams, restores every tile's armed state and shows the same share URL.
   */
  method ShareLinkRestoresTune(tm: ToneMatrix) returns (reopened: ToneMatrix)
    requires tm.Valid() && SearchParams.IsPageURL(tm.originalURL)
    ensures fresh(reopened) && reopened.Valid()
    ensures ArmedStates(reopened.grid.data) == ArmedStates(tm.grid.data)
    ensures reopened.clipboard == ShareField(tm.originalURL, tm.grid.data)
  {
    var code := tm.grid.ToBase64();
    ShareCodeIsAscii(ArmedStates(tm.grid.data));
    var link := SharingURL(tm.originalURL, code);
    SharingURLCarriesCode(tm.originalURL, code);
    var d := SearchParams.SearchParam(link, "d");
    reopened := new ToneMatrix(tm.canvasWidth, tm.canvasHeight, tm.originalURL, d);
    if code == "" {
      assert ArmedStates(tm.grid.data) == seq(Width * Height, i => false);
    } else {
      Savestate.LoadShareCode(ArmedStates(tm.grid.data));
    }
  }
}

/** The unoptimizer: rewrites every frame of a stream as an independent
    full-screen frame by simulating a renderer's virtual screen. */
module GifUnopt {
  import opened GifTypes
  import opened ScreenSpec
  import opened RemapSpec
  import opened UnoptSpec

  /** Cell k of the clipped rectangle r has been visited by a row-by-row scan
      that has finished `rows` rows and, in the next row, `cols` cells. */
  ghost predicate Visited(k: int, sw: nat, sh: nat, r: Rect, rows: int, cols: int) {
    InClip(k, sw, sh, r) &&
    (k / sw - r.top < rows || (k / sw - r.top == rows && k % sw - r.left < cols))
  }

  /** Draws frame gfi onto the screen: every opaque pixel of its clipped
      rectangle replaces the screen cell under it. */
  method PutImageInScreen(gfs: Stream, gfi: Image, screen: array<Ext>)
    requires gfi.Value().Valid()
    requires screen.Length == gfs.screenWidth * gfs.screenHeight
    modifies screen
    ensures screen[..] == Composite(old(screen[..]), gfs.screenWidth, gfs.screenHeight, gfi.Value())
  {
    var transparent := gfi.transparent;
    var sw, sh := gfs.screenWidth, gfs.screenHeight;
    var w := gfi.width;
    var h := gfi.height;
    if gfi.left + w > sw { w := sw - gfi.left; }
    if gfi.top + h > sh { h := sh - gfi.top; }
    ghost var f := gfi.Value();
    ghost var s0 := screen[..];
    assert w == ClipWidth(f.Bounds(), sw) && h == ClipHeight(f.Bounds(), sh);

    var y := 0;
    while y < h
      invariant 0 <= y && (h >= 0 ==> y <= h)
      invariant forall k :: 0 <= k < screen.Length ==>
                  screen[k] == if Visited(k, sw, sh, f.Bounds(), y, 0) then DrawCell(s0[k], k, sw, sh, f) else s0[k]
    {
      var x := 0;
      while x < w
        invariant 0 <= x && (w >= 0 ==> x <= w)
        invariant forall k :: 0 <= k < screen.Length ==>
                    screen[k] == if Visited(k, sw, sh, f.Bounds(), y, x) then DrawCell(s0[k], k, sw, sh, f) else s0[k]
      {
        CellIndex(sw, sh, y + gfi.top, gfi.left + x);
        RowMajorBound(y, x, gfi.width, gfi.height);
        var move := sw * (y + gfi.top) + gfi.left + x;
        var line := gfi.img[y * gfi.width + x];
        if line != transparent {
          screen[move] := line;
        }
        forall k | 0 <= k < screen.Length
          ensures Visited(k, sw, sh, f.Bounds(), y, x + 1) <==> Visited(k, sw, sh, f.Bounds(), y, x) || k == move
        {
          CellOfIndex(k, sw, sh);
        }
        x := x + 1;
      }
      y := y + 1;
    }
    forall k | 0 <= k < screen.Length
      ensures screen[k] == DrawCell(s0[k], k, sw, sh, f)
    {
    }
  }

  /** Erases frame gfi's clipped rectangle to the solid value that
      restore-to-background disposal calls for. */
  method PutBackgroundInScreen(gfs: Stream, gfi: Image, screen: array<Ext>)
    requires |gfs.images| > 0
    requires screen.Length == gfs.screenWidth * gfs.screenHeight
    modifies screen
    ensures screen[..] == FillRect(old(screen[..]), gfs.screenWidth, gfs.screenHeight, gfi.Value().Bounds(),
                                   Solid(gfi.transparent, gfs.images[0].transparent, gfs.background))
  {
    var solid: Ext;
    var sw, sh := gfs.screenWidth, gfs.screenHeight;
    var w := gfi.width;
    var h := gfi.height;
    if gfi.left + w > sw { w := sw - gfi.left; }
    if gfi.top + h > sh { h := sh - gfi.top; }
    ghost var r := gfi.Value().Bounds();
    ghost var s0 := screen[..];
    assert w == ClipWidth(r, sw) && h == ClipHeight(r, sh);

    if gfi.transparent >= 0 {
      solid := TRANSPARENT;
    } else if gfs.images[0].transparent >= 0 {
      solid := TRANSPARENT;
    } else {
      solid := gfs.background;
    }

    var y := 0;
    while y < h
      invariant 0 <= y && (h >= 0 ==> y <= h)
      invariant forall k :: 0 <= k < screen.Length ==>
                  screen[k] == if Visited(k, sw, sh, r, y, 0) then solid else s0[k]
    {
      var x := 0;
      while x < w
        invariant 0 <= x && (w >= 0 ==> x <= w)
        invariant forall k :: 0 <= k < screen.Length ==>
                    screen[k] == if Visited(k, sw, sh, r, y, x) then solid else s0[k]
      {
        CellIndex(sw, sh, y + gfi.top, gfi.left + x);
        var move := sw * (y + gfi.top) + gfi.left + x;
        screen[move] := solid;
        forall k | 0 <= k < screen.Length
          ensures Visited(k, sw, sh, r, y, x + 1) <==> Visited(k, sw, sh, r, y, x) || k == move
        {
          CellOfIndex(k, sw, sh);
        }
        x := x + 1;
      }
      y := y + 1;
    }
  }

  /** Turns the composited screen into frame gfi's new pixels: chooses the
      smallest palette index absent from the screen as the transparent index
      when the screen holds the sentinel, grows the global palette to hold
      it, and maps sentinel cells onto it. Fails when every index is in use. */
  method CreateImageData(gfs: Stream, gfi: Image, screen: array<Ext>, newData: array<byte>) returns (ok: bool)
    requires gfs.global != null && gfs.global.Value().Valid()
    requires screen.Length == newData.Length
    modifies gfi`transparent, gfs.global, newData
    ensures var t := NewTransparent(screen[..]);
            ok == t.Some? &&
            (ok ==> gfi.transparent == t.value &&
                    newData[..] == Flatten(screen[..], t.value) &&
                    gfs.global.Value() == Grow(old(gfs.global.Value()), t.value)) &&
            (!ok ==> gfi.transparent == old(gfi.transparent) &&
                     gfs.global.Value() == old(gfs.global.Value()))
  {
    var size := screen.Length;
    var have := new bool[257](_ => false);
    var transparent := -1;

    for i := 0 to size
      modifies have
      invariant forall v :: 0 <= v < 257 ==> have[v] == (v in screen[..i])
    {
      assert screen[..i + 1] == screen[..i] + [screen[i]];
      have[screen[i]] := true;
    }
    assert screen[..size] == screen[..];

    if have[TRANSPARENT] {
      var i := 0;
      while i < 256 && transparent < 0
        modifies {}
        invariant 0 <= i <= 256
        invariant transparent < 0 ==> transparent == -1 && forall j :: 0 <= j < i ==> have[j]
        invariant transparent >= 0 ==> transparent < 256 && !have[transparent] &&
                                       forall j :: 0 <= j < transparent ==> have[j]
      {
        if !have[i] {
          transparent := i;
        }
        i := i + 1;
      }
      if transparent < 0 {
        NoIndexLeft(screen[..], have[..]);
        return false;
      }
      if transparent >= gfs.global.ncol {
        gfs.global.col := Resize(gfs.global.col, MAX_COLORS);
        gfs.global.ncol := transparent + 1;
      }
    }
    IndexChosen(screen[..], have[..], transparent);

    for i := 0 to size
      modifies newData
      invariant forall j :: 0 <= j < i ==>
                  newData[j] == if screen[j] == TRANSPARENT then transparent else screen[j]
    {
      if screen[i] == TRANSPARENT {
        assert screen[i] in screen[..];
        newData[i] := transparent;
      } else {
        newData[i] := screen[i];
      }
    }

    gfi.transparent := transparent;
    return true;
  }

  /** The presence table says which extended indices occur on screen s. */
  ghost predicate Presence(s: seq<Ext>, have: seq<bool>) {
    |have| == 257 && forall v :: 0 <= v < 257 ==> have[v] == (v in s)
  }

  /** A presence table showing the sentinel and every index 0..255 means no
      transparent index can be chosen. */
  lemma NoIndexLeft(s: seq<Ext>, have: seq<bool>)
    requires Presence(s, have) && have[TRANSPARENT]
    requires forall j :: 0 <= j < 256 ==> have[j]
    ensures NewTransparent(s).None?
  {
  }

  /** The index the search over the presence table settles on (-1 when the
      sentinel is absent) is the one NewTransparent chooses. */
  lemma IndexChosen(s: seq<Ext>, have: seq<bool>, t: int)
    requires Presence(s, have)
    requires !have[TRANSPARENT] ==> t == -1
    requires have[TRANSPARENT] ==> 0 <= t < 256 && !have[t] && forall j :: 0 <= j < t ==> have[j]
    ensures NewTransparent(s) == Some(t)
  {
    NewTransparentMinimal(s);
  }

  /** Rewrites frame gfi as an independent full-screen frame, composited on
      the shared screen, or on a copy of it when the frame's disposal is
      restore-to-previous, and applies the frame's disposal to the shared
      screen. */
  method UnoptimizeImage(gfs: Stream, gfi: Image, screen: array<Ext>) returns (ok: bool)
    requires gfs.global != null && gfs.global.Value().Valid()
    requires gfi.Value().Valid()
    requires |gfs.images| > 0
    requires screen.Length == gfs.screenWidth * gfs.screenHeight
    modifies screen, gfi, gfs.global
    ensures var r := StepFrame(old(screen[..]), gfs.screenWidth, gfs.screenHeight, gfs.background,
                               old(gfi.Value()), old(gfs.global.Value()),
                               old(gfs.images[0].transparent), gfs.images[0] == gfi);
            ok == r.ok && gfi.Value() == r.frame && screen[..] == r.screen &&
            gfs.global.Value() == r.palette
    ensures gfi.local == old(gfi.local)
  {
    var size := gfs.screenWidth * gfs.screenHeight;
    var newData := new byte[size];
    var newScreen := screen;

    if gfi.disposal == Previous {
      newScreen := CopyScreen(screen);
    }

    PutImageInScreen(gfs, gfi, newScreen);
    ok := CreateImageData(gfs, gfi, newScreen, newData);
    if !ok {
      return;
    }

    // A restore-to-previous frame drew on the scratch copy, which is dropped;
    // only restore-to-background changes the shared screen.
    if gfi.disposal == Background {
      PutBackgroundInScreen(gfs, gfi, screen);
    }

    gfi.MakeFull(gfs.screenWidth, gfs.screenHeight, newData[..]);
  }

  /** A fresh copy of the screen, for a frame whose disposal restores the
      screen as it was before the frame. */
  method CopyScreen(screen: array<Ext>) returns (copy: array<Ext>)
    ensures fresh(copy) && copy[..] == screen[..]
  {
    copy := new Ext[screen.Length](i requires 0 <= i < screen.Length reads screen => screen[i]);
  }

  /** The stream, the shared screen, the global palette and the success
      flag `ok` hold the state the pass from `start` has reached after its
      first i frames. */
  ghost predicate Reached(gfs: Stream, screen: array<Ext>, start: RunState, i: nat, ok: bool)
    reads gfs, gfs.images, gfs.global, screen
    requires start.Valid(gfs.screenWidth, gfs.screenHeight) && i <= |start.frames|
  {
    var p := Pass(gfs.screenWidth, gfs.screenHeight, gfs.background, start, i);
    gfs.global != null && Frames(gfs.images) == p.frames && screen[..] == p.screen &&
    gfs.global.Value() == p.palette && ok == p.ok
  }

  /** One iteration of the driver: rewriting frame i with UnoptimizeImage
      moves the stream from the state the pass reaches after i frames to the
      state it reaches after i + 1, and reports whether the step succeeded;
      `okSoFar` is the success flag of the frames before it. */
  method UnoptimizeAt(gfs: Stream, i: nat, screen: array<Ext>, ghost start: RunState, ghost okSoFar: bool)
    returns (ok: bool)
    requires start.Valid(gfs.screenWidth, gfs.screenHeight) && i < |start.frames|
    requires forall j, k :: 0 <= j < k < |gfs.images| ==> gfs.images[j] != gfs.images[k]
    requires Reached(gfs, screen, start, i, okSoFar)
    modifies screen, gfs.images[i], gfs.global
    ensures Reached(gfs, screen, start, i + 1, okSoFar && ok)
    ensures ok == StepAt(gfs.screenWidth, gfs.screenHeight, gfs.background, start, i).ok
    ensures forall j :: 0 <= j < |gfs.images| ==> gfs.images[j].local == old(gfs.images[j].local)
  {
    var sw, sh := gfs.screenWidth, gfs.screenHeight;
    ghost var p := Pass(sw, sh, gfs.background, start, i);
    PassNext(sw, sh, gfs.background, start, i);
    ghost var fs := Frames(gfs.images);
    assert fs[i] == gfs.images[i].Value() && fs[0] == gfs.images[0].Value();
    assert gfs.images[0] == gfs.images[i] <==> i == 0;
    ok := UnoptimizeImage(gfs, gfs.images[i], screen);
    ghost var gs := Frames(gfs.images);
    forall j | 0 <= j < |gfs.images|
      ensures gs[j] == fs[i := gfs.images[i].Value()][j]
    {
      if j != i {
        assert gfs.images[j] != gfs.images[i];
      }
    }
  }

  /** Rewrites every frame of the stream, in order, as an independent
      full-screen frame. Streams of at most one frame are left alone; streams
      with a local palette or without a global palette are refused before
      anything changes. The result is true exactly when every frame was
      rewritten. */
  method Unoptimize(gfs: Stream) returns (ok: bool)
    requires gfs.Valid()
    modifies gfs.images, gfs.global
    ensures |gfs.images| <= 1 ==>
              ok && Frames(gfs.images) == old(Frames(gfs.images)) &&
              (gfs.global != null ==> gfs.global.Value() == old(gfs.global.Value()))
    ensures |gfs.images| > 1 && old(exists i :: 0 <= i < |gfs.images| && gfs.images[i].local) ==>
              !ok && Frames(gfs.images) == old(Frames(gfs.images)) &&
              (gfs.global != null ==> gfs.global.Value() == old(gfs.global.Value()))
    ensures |gfs.images| > 1 && gfs.global == null ==>
              !ok && Frames(gfs.images) == old(Frames(gfs.images))
    ensures |gfs.images| > 1 && old(forall i :: 0 <= i < |gfs.images| ==> !gfs.images[i].local) &&
            gfs.global != null ==>
              var sw, sh := gfs.screenWidth, gfs.screenHeight;
              var start := RunState(true, old(Frames(gfs.images)),
                                    InitialScreen(sw, sh, old(gfs.images[0].transparent), gfs.background),
                                    old(gfs.global.Value()));
              var r := Pass(sw, sh, gfs.background, start, |gfs.images|);
              ok == r.ok && Frames(gfs.images) == r.frames && gfs.global.Value() == r.palette
    ensures forall j :: 0 <= j < |gfs.images| ==> gfs.images[j].local == old(gfs.images[j].local)
    ensures gfs.Valid()
  {
    var n := |gfs.images|;
    if n <= 1 {
      return true;
    }
    for i := 0 to n
      modifies {}
      invariant forall j :: 0 <= j < i ==> !gfs.images[j].local
    {
      if gfs.images[i].local {
        return false;
      }
    }
    if gfs.global == null {
      return false;
    }

    var sw, sh := gfs.screenWidth, gfs.screenHeight;
    ghost var start := RunState(true, Frames(gfs.images),
                                InitialScreen(sw, sh, gfs.images[0].transparent, gfs.background),
                                gfs.global.Value());
    assert start.Valid(sw, sh);
    var screen := NewScreen(sw, sh, gfs.images[0].transparent, gfs.background);
    ok := UnoptimizeAll(gfs, screen, start);
    ghost var fs := Frames(gfs.images);
    forall i | 0 <= i < |gfs.images|
      ensures gfs.images[i].Value().Valid()
    {
      assert fs[i] == gfs.images[i].Value();
    }
  }

  /** The virtual screen before the first frame, filled with the sentinel
      when the first frame has a transparent index, with the stream's
      background colour otherwise. */
  method NewScreen(sw: nat, sh: nat, firstT: int, background: byte) returns (screen: array<Ext>)
    ensures fresh(screen) && screen[..] == InitialScreen(sw, sh, firstT, background)
  {
    var size := sw * sh;
    screen := new Ext[size];
    var fill: Ext := if firstT >= 0 then TRANSPARENT else background;
    for i := 0 to size
      modifies screen
      invariant forall j :: 0 <= j < i ==> screen[j] == fill
    {
      screen[i] := fill;
    }
  }

  /** The rewriting loop of the driver: every frame, in order, rewritten
      on the shared screen. The stream ends in the state the pass from
      `start` reaches after all frames, and the result is the pass's
      success flag. */
  method UnoptimizeAll(gfs: Stream, screen: array<Ext>, ghost start: RunState) returns (ok: bool)
    requires start.Valid(gfs.screenWidth, gfs.screenHeight) && |start.frames| == |gfs.images|
    requires forall j, k :: 0 <= j < k < |gfs.images| ==> gfs.images[j] != gfs.images[k]
    requires Reached(gfs, screen, start, 0, true)
    modifies screen, gfs.images, gfs.global
    ensures Reached(gfs, screen, start, |gfs.images|, ok)
    ensures forall j :: 0 <= j < |gfs.images| ==> gfs.images[j].local == old(gfs.images[j].local)
  {
    ok := true;
    for i := 0 to |gfs.images|
      invariant Reached(gfs, screen, start, i, ok)
      invariant forall j :: 0 <= j < |gfs.images| ==> gfs.images[j].local == old(gfs.images[j].local)
    {
      var r := UnoptimizeAt(gfs, i, screen, start, ok);
      if !r {
        ok := false;
      }
    }
  }
}

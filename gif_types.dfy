/** Data model of the GIF library's stream, frames and palettes, as far as
    the unoptimizer reads and writes them. */
module GifTypes {

  /** A palette index: one pixel of a frame's decoded image. */
  type byte = x: int | 0 <= x < 256

  /** An extended index held by the virtual screen: a palette index 0..255,
      or the sentinel TRANSPARENT. */
  type Ext = x: int | 0 <= x <= 256

  /** Screen value meaning "nothing opaque has been drawn here". */
  const TRANSPARENT: Ext := 256

  /** Number of entries the global palette is reallocated to when it grows. */
  const MAX_COLORS: nat := 256

  datatype Option<T> = None | Some(value: T)

  /** The disposal method of a frame's Graphic Control Extension
      (section 23 of the GIF89a specification). */
  datatype Disposal = Unspecified | Asis | Background | Previous

  datatype Color = Color(red: byte, green: byte, blue: byte)

  /** The rectangle a frame occupies on the logical screen. */
  datatype Rect = Rect(left: nat, top: nat, width: nat, height: nat)

  /** The value of one frame: placement, disposal, transparent index (-1 for
      none) and its decoded pixels, row-major, `width` pixels per row. */
  datatype Frame = Frame(left: nat, top: nat, width: nat, height: nat,
                         disposal: Disposal, transparent: int, img: seq<byte>)
  {
    predicate Valid() {
      -1 <= transparent < 256 && |img| == width * height
    }

    function Bounds(): Rect {
      Rect(left, top, width, height)
    }
  }

  /** The value of a palette: the number of colours in use and the backing
      storage, which may be larger. */
  datatype Palette = Palette(ncol: int, colors: seq<Color>)
  {
    predicate Valid() {
      0 <= ncol <= MAX_COLORS && ncol <= |colors|
    }
  }

  /** A frame of the stream (the library's Gif_Image). */
  class Image {
    var left: nat
    var top: nat
    var width: nat
    var height: nat
    var disposal: Disposal
    var transparent: int
    var img: seq<byte>
    /** Whether the frame carries a local colour table. */
    var local: bool

    function Value(): Frame
      reads this
    {
      Frame(left, top, width, height, disposal, transparent, img)
    }

    /** Turns the frame into a full w-by-h frame at (0, 0) holding `pixels`,
        erased to background after display; its transparent index and local
        palette flag stay as they are. */
    method MakeFull(w: nat, h: nat, pixels: seq<byte>)
      modifies this
      ensures Value() == Frame(0, 0, w, h, Background, old(transparent), pixels)
      ensures local == old(local)
    {
      left, top, width, height := 0, 0, w, h;
      disposal := Background;
      img := pixels;
    }
  }

  /** A colour table (the library's Gif_Colormap). */
  class Colormap {
    var ncol: int
    var col: seq<Color>

    function Value(): Palette
      reads this
    {
      Palette(ncol, col)
    }
  }

  /** An animated image (the library's Gif_Stream). */
  class Stream {
    var images: seq<Image>
    var global: Colormap?
    var screenWidth: nat
    var screenHeight: nat
    var background: byte

    /** The stream owns its frames, so no frame appears twice; every frame
        and the global palette are well formed. */
    ghost predicate Valid()
      reads this, images, global
    {
      (forall i, j :: 0 <= i < j < |images| ==> images[i] != images[j]) &&
      (forall i :: 0 <= i < |images| ==> images[i].Value().Valid()) &&
      (global != null ==> global.Value().Valid())
    }
  }

  /** The values of a sequence of frames. */
  function Frames(images: seq<Image>): seq<Frame>
    reads images
  {
    seq(|images|, i requires 0 <= i < |images| reads images => images[i].Value())
  }
}

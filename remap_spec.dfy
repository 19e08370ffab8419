/** Reference definitions of how a composited screen becomes a frame of
    plain palette indices: the choice of a transparent index, the mapping of
    sentinel cells onto it, and the growth of the global palette. */
module RemapSpec {
  import opened GifTypes

  /** The first palette index from i upwards that does not occur on the
      screen s, or None when every index from i to 255 occurs. */
  function FirstUnused(s: seq<Ext>, i: nat): (r: Option<byte>)
    requires i <= 256
    ensures r.Some? ==> i <= r.value && r.value !in s
    decreases 256 - i
  {
    if i == 256 then None
    else if i !in s then Some(i)
    else FirstUnused(s, i + 1)
  }

  /** FirstUnused finds the smallest unused index: every index it skips is in
      use, and it gives up only when every index from i to 255 is in use. */
  lemma {:induction false} FirstUnusedMinimal(s: seq<Ext>, i: nat)
    requires i <= 256
    ensures FirstUnused(s, i).Some? ==> forall j :: i <= j < FirstUnused(s, i).value ==> j in s
    ensures FirstUnused(s, i).None? <==> forall j :: i <= j < 256 ==> j in s
    decreases 256 - i
  {
    if i < 256 && i in s {
      FirstUnusedMinimal(s, i + 1);
    }
  }

  /** The transparent index a flattened frame with screen content s needs:
      Some(-1) (no transparency) when no cell holds the sentinel, the
      smallest index absent from s otherwise, and None (failure) when the
      sentinel occurs and all 256 indices are in use. */
  function NewTransparent(s: seq<Ext>): (r: Option<int>)
    ensures r == Some(-1) <==> TRANSPARENT !in s
    ensures r.Some? && r.value != -1 ==> 0 <= r.value < 256 && r.value !in s
  {
    if TRANSPARENT !in s then Some(-1)
    else match FirstUnused(s, 0)
      case None => None
      case Some(t) => Some(t as int)
  }

  /** The choice of transparent index fails exactly when the sentinel occurs
      and all 256 indices are in use, and an index it chooses is the smallest
      one absent from s. */
  lemma NewTransparentMinimal(s: seq<Ext>)
    ensures NewTransparent(s).None? <==> TRANSPARENT in s && forall j :: 0 <= j < 256 ==> j in s
    ensures NewTransparent(s).Some? && NewTransparent(s).value != -1 ==>
              forall j :: 0 <= j < NewTransparent(s).value ==> j in s
  {
    FirstUnusedMinimal(s, 0);
  }

  /** The pixels of the flattened frame: every sentinel cell becomes t, every
      other cell is copied. */
  function Flatten(s: seq<Ext>, t: int): (p: seq<byte>)
    requires TRANSPARENT in s ==> 0 <= t < 256
    ensures |p| == |s|
  {
    seq(|s|, k requires 0 <= k < |s| => if s[k] == TRANSPARENT then t else s[k])
  }

  /** Reads flattened pixels back as screen content, with t as the
      transparent index. */
  function Unflatten(p: seq<byte>, t: int): seq<Ext> {
    seq(|p|, k requires 0 <= k < |p| => if p[k] == t then TRANSPARENT else p[k])
  }

  /** Flattening with the chosen transparent index loses nothing: the frame's
      pixels, read back with that index as transparent, give back the screen
      content exactly. */
  lemma FlattenRoundTrip(s: seq<Ext>)
    requires NewTransparent(s).Some?
    ensures var t := NewTransparent(s).value;
            Unflatten(Flatten(s, t), t) == s
  {
  }

  /** Without a sentinel on the screen the frame's pixels are the screen's
      cells unchanged. */
  lemma FlattenOpaque(s: seq<Ext>, t: int)
    requires TRANSPARENT !in s
    ensures |Flatten(s, t)| == |s|
    ensures forall k :: 0 <= k < |s| ==> Flatten(s, t)[k] == s[k]
  {
  }

  /** The palette storage after a reallocation to n entries: existing entries
      keep their positions; the colour of added slots is not specified by the
      library, this model makes them black. */
  function Resize(c: seq<Color>, n: nat): (r: seq<Color>)
    ensures |r| == n
    ensures forall j :: 0 <= j < n && j < |c| ==> r[j] == c[j]
  {
    if |c| >= n then c[..n] else c + seq(n - |c|, _ => Color(0, 0, 0))
  }

  /** The palette after transparent index t has been chosen: it grows to
      t + 1 colours when t is not yet one of its colours. */
  function Grow(p: Palette, t: int): (q: Palette)
    requires p.Valid() && -1 <= t < 256
    ensures q.Valid() && p.ncol <= q.ncol && t < q.ncol
  {
    if t >= p.ncol then Palette(t + 1, Resize(p.colors, MAX_COLORS)) else p
  }

  /** Growth only adds colours, never more than 256, keeps every existing
      colour at its index, makes t a colour of the palette, and happens
      exactly when t is not yet one. */
  lemma GrowKeeps(p: Palette, t: int)
    requires p.Valid() && -1 <= t < 256
    ensures var q := Grow(p, t);
            q.Valid() && p.ncol <= q.ncol <= MAX_COLORS && t < q.ncol &&
            (q.ncol != p.ncol <==> t >= p.ncol) &&
            (q.ncol != p.ncol ==> q.ncol == t + 1) &&
            forall j :: 0 <= j < p.ncol ==> q.colors[j] == p.colors[j]
  {
  }
}

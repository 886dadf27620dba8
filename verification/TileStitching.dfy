/** Stitching a raster out of tiles: `assembleElevation` of
    `demo/geovault/workstation.js` copies tile rows, `assembleElevationGrid` of
    `demo/cog-viewer/main.js` copies samples and tracks a mask and the extremes. */
module TileStitching {
  import opened Prelude
  import opened Raster
  import opened TypedArray

  /** Image and tile size. The last tile of a row or column may stick out. */
  datatype Grid = Grid(w: nat, h: nat, tw: nat, th: nat) {
    predicate Valid() { tw > 0 && th > 0 }
  }

  function CeilDiv(a: nat, b: nat): nat
    requires b > 0
  {
    (a + b - 1) / b
  }

  predicate InImage(g: Grid, y: int, x: int) {
    0 <= y < g.h && 0 <= x < g.w
  }

  /** The tile that covers a coordinate and the place inside it. */
  function Tile(x: nat, size: nat): nat
    requires size > 0
  {
    x / size
  }

  function Within(x: nat, size: nat): nat
    requires size > 0
  {
    x % size
  }

  /** Tile `q` of the given size, place `r` in it, is coordinate q * size + r,
      and nothing else is: each coordinate belongs to one tile and one place. */
  lemma TilePlace(size: nat, q: nat, r: nat, x: nat)
    requires size > 0 && r < size
    ensures x == q * size + r <==> Tile(x, size) == q && Within(x, size) == r
  {
    if x == q * size + r { DivMod(size, q, r); }
  }

  lemma DivMod(size: nat, q: nat, r: nat)
    requires r < size
    ensures (q * size + r) / size == q && (q * size + r) % size == r
  {
    var x := q * size + r;
    assert x == (x / size) * size + x % size;
    QuotientUnique(size, q, r, x / size, x % size);
  }

  lemma QuotientUnique(size: nat, q: int, r: int, q': int, r': int)
    requires 0 <= r < size && 0 <= r' < size && q * size + r == q' * size + r'
    ensures q == q' && r == r'
  {
    if q < q' { MultiplyMonotone(size, q + 1, q'); }
    if q' < q { MultiplyMonotone(size, q' + 1, q); }
  }

  /** Facts about the tile a coordinate lies in: its number is below the tile
      count, and its place is below the tile's clipped width. */
  lemma TileBounds(x: nat, size: nat, total: nat)
    requires size > 0 && x < total
    ensures x == Tile(x, size) * size + Within(x, size) && Within(x, size) < size
    ensures Tile(x, size) < CeilDiv(total, size)
    ensures Within(x, size) < Min(size, total - Tile(x, size) * size)
  {
    var q, n := x / size, CeilDiv(total, size);
    assert x == q * size + x % size;
    var t := total + size - 1;
    assert t == n * size + t % size;
    if n <= q { MultiplyMonotone(size, n, q); }
  }

  /** Every place in a clipped tile is in the image. */
  lemma PlaceInImage(q: nat, r: nat, size: nat, total: nat)
    requires size > 0 && r < Min(size, total - q * size)
    ensures 0 <= q * size + r < total && Tile(q * size + r, size) == q && Within(q * size + r, size) == r
  {
    TilePlace(size, q, r, q * size + r);
  }

  /** The loops have passed pixel (x, y) when they stand at place (r, c) of tile
      (tx, ty): tile rows first, then tiles, then rows of the tile, then columns. */
  predicate Visited(g: Grid, ty: nat, tx: nat, r: nat, c: nat, y: nat, x: nat)
    requires g.Valid()
  {
    || Tile(y, g.th) < ty
    || (Tile(y, g.th) == ty
        && (|| Tile(x, g.tw) < tx
            || (Tile(x, g.tw) == tx
                && (|| Within(y, g.th) < r
                    || (Within(y, g.th) == r && Within(x, g.tw) < c)))))
  }

  /** One more column passes exactly one more pixel. */
  lemma VisitedStep(g: Grid, ty: nat, tx: nat, r: nat, c: nat, y: nat, x: nat)
    requires g.Valid() && r < g.th && c < g.tw
    ensures Visited(g, ty, tx, r, c + 1, y, x) <==>
            Visited(g, ty, tx, r, c, y, x) || (y == ty * g.th + r && x == tx * g.tw + c)
    ensures y == ty * g.th + r && x == tx * g.tw + c ==> !Visited(g, ty, tx, r, c, y, x)
  {
    TilePlace(g.th, ty, r, y);
    TilePlace(g.tw, tx, c, x);
  }

  lemma VisitedRowEnd(g: Grid, ty: nat, tx: nat, r: nat, y: nat, x: nat)
    requires g.Valid() && InImage(g, y, x)
    requires tx * g.tw < g.w
    ensures Visited(g, ty, tx, r, Min(g.tw, g.w - tx * g.tw), y, x) <==> Visited(g, ty, tx, r + 1, 0, y, x)
  {
    TileBounds(x, g.tw, g.w);
  }

  lemma VisitedTileEnd(g: Grid, ty: nat, tx: nat, y: nat, x: nat)
    requires g.Valid() && InImage(g, y, x)
    requires ty * g.th < g.h
    ensures Visited(g, ty, tx, Min(g.th, g.h - ty * g.th), 0, y, x) <==> Visited(g, ty, tx + 1, 0, 0, y, x)
  {
    TileBounds(y, g.th, g.h);
  }

  lemma VisitedTileRowEnd(g: Grid, ty: nat, y: nat, x: nat)
    requires g.Valid() && InImage(g, y, x)
    ensures Visited(g, ty, CeilDiv(g.w, g.tw), 0, 0, y, x) <==> Visited(g, ty + 1, 0, 0, 0, y, x)
  {
    TileBounds(x, g.tw, g.w);
  }

  lemma VisitedEnd(g: Grid, y: nat, x: nat)
    requires g.Valid() && InImage(g, y, x)
    ensures Visited(g, CeilDiv(g.h, g.th), 0, 0, 0, y, x)
  {
    TileBounds(y, g.th, g.h);
  }

  /** A tile the loops reach starts inside the image. */
  lemma TileStarts(q: nat, size: nat, total: nat)
    requires size > 0 && q < CeilDiv(total, size)
    ensures q * size < total
  {
    var n := CeilDiv(total, size);
    var t := total + size - 1;
    assert t == n * size + t % size;
    MultiplyMonotone(size, q + 1, n);
  }

  // --------------------------------------------------------------- plain stitch

  /** The value a pixel gets: the tile's sample, or zero past the tile's end. */
  function Stitched<T>(tile: (nat, nat) -> seq<T>, zero: T, g: Grid, y: nat, x: nat): T
    requires g.Valid()
  {
    var t := tile(Tile(x, g.tw), Tile(y, g.th));
    var k := Within(y, g.th) * g.tw + Within(x, g.tw);
    if k < |t| then t[k] else zero
  }

  ghost predicate StitchedUpTo<T>(out: seq<T>, tile: (nat, nat) -> seq<T>, zero: T, g: Grid, ty: nat, tx: nat, r: nat)
    requires g.Valid()
  {
    && |out| == g.w * g.h
    && forall y, x :: InImage(g, y, x) ==>
                        && 0 <= At(g.w, y, x) < |out|
                        && out[At(g.w, y, x)] ==
                           if Visited(g, ty, tx, r, 0, y, x) then Stitched(tile, zero, g, y, x) else zero
  }

  /** Copying one row of a tile advances the stitch by one row. */
  lemma CopiedRow<T>(before: seq<T>, after: seq<T>, tile: (nat, nat) -> seq<T>, zero: T, g: Grid,
                     ty: nat, tx: nat, r: nat, copyW: nat, sub: seq<T>, dst: nat)
    requires g.Valid() && tx * g.tw < g.w && r < Min(g.th, g.h - ty * g.th)
    requires copyW == Min(g.tw, g.w - tx * g.tw) && sub == Subarray(tile(tx, ty), r * g.tw, r * g.tw + copyW)
    requires dst == At(g.w, ty * g.th + r, tx * g.tw) && dst + |sub| <= |before|
    requires after == before[..dst] + sub + before[dst + |sub|..]
    requires StitchedUpTo(before, tile, zero, g, ty, tx, r)
    ensures StitchedUpTo(after, tile, zero, g, ty, tx, r + 1)
  {
    forall y, x | InImage(g, y, x)
      ensures && 0 <= At(g.w, y, x) < |after|
              && after[At(g.w, y, x)] ==
                 if Visited(g, ty, tx, r + 1, 0, y, x) then Stitched(tile, zero, g, y, x) else zero
    {
      CopiedPixel(before, after, tile, zero, g, ty, tx, r, copyW, sub, dst, y, x);
    }
  }

  lemma CopiedPixel<T>(before: seq<T>, after: seq<T>, tile: (nat, nat) -> seq<T>, zero: T, g: Grid,
                       ty: nat, tx: nat, r: nat, copyW: nat, sub: seq<T>, dst: nat, y: nat, x: nat)
    requires g.Valid() && tx * g.tw < g.w && r < Min(g.th, g.h - ty * g.th) && InImage(g, y, x)
    requires copyW == Min(g.tw, g.w - tx * g.tw) && sub == Subarray(tile(tx, ty), r * g.tw, r * g.tw + copyW)
    requires dst == At(g.w, ty * g.th + r, tx * g.tw) && dst + |sub| <= |before|
    requires after == before[..dst] + sub + before[dst + |sub|..]
    requires 0 <= At(g.w, y, x) < |before|
    requires before[At(g.w, y, x)] == if Visited(g, ty, tx, r, 0, y, x) then Stitched(tile, zero, g, y, x) else zero
    ensures after[At(g.w, y, x)] == if Visited(g, ty, tx, r + 1, 0, y, x) then Stitched(tile, zero, g, y, x) else zero
  {
    hide At, Visited, Stitched, Subarray;
    var gy, gx := ty * g.th + r, tx * g.tw;
    SubLength(tile(tx, ty), r * g.tw, copyW);
    RowIndex(g.w, gy, gx, y, x, |sub|);
    NewlyVisited(g, ty, tx, r, y, x);
    SplicedAt(before, sub, dst, At(g.w, y, x));
    if y == gy && gx <= x < gx + copyW { StitchedHere(tile, zero, g, ty, tx, r, copyW, x); }
  }

  lemma SplicedAt<T>(before: seq<T>, sub: seq<T>, dst: nat, i: nat)
    requires dst + |sub| <= |before| && i < |before|
    ensures (before[..dst] + sub + before[dst + |sub|..])[i] ==
            if dst <= i < dst + |sub| then sub[i - dst] else before[i]
  {
  }

  lemma SubLength<T>(t: seq<T>, from: nat, n: nat)
    ensures |Subarray(t, from, from + n)| <= n
  {
  }

  /** What the pixels in the copied stretch are to get. */
  lemma StitchedHere<T>(tile: (nat, nat) -> seq<T>, zero: T, g: Grid, ty: nat, tx: nat, r: nat, copyW: nat, x: nat)
    requires g.Valid() && r < g.th && copyW <= g.tw && tx * g.tw <= x < tx * g.tw + copyW
    ensures var sub, k := Subarray(tile(tx, ty), r * g.tw, r * g.tw + copyW), x - tx * g.tw;
            Stitched(tile, zero, g, ty * g.th + r, x) == if k < |sub| then sub[k] else zero
  {
    TilePlace(g.th, ty, r, ty * g.th + r);
    TilePlace(g.tw, tx, x - tx * g.tw, x);
    hide Tile, Within;
  }

  /** Which pixels fall in the copied stretch of row `gy`. */
  lemma RowIndex(w: nat, gy: nat, gx: nat, y: nat, x: nat, n: nat)
    requires x < w && gx < w && gx + n <= w
    ensures At(w, gy, gx) <= At(w, y, x) < At(w, gy, gx) + n <==> y == gy && gx <= x < gx + n
    ensures y == gy ==> At(w, y, x) - At(w, gy, gx) == x - gx
  {
    if y < gy { EarlierRow(w, y, gy, x); }
    if y > gy { LaterRow(w, y, gy, x); }
  }

  lemma NewlyVisited(g: Grid, ty: nat, tx: nat, r: nat, y: nat, x: nat)
    requires g.Valid() && InImage(g, y, x) && tx * g.tw < g.w && r < g.th
    ensures var gy, gx := ty * g.th + r, tx * g.tw;
            var here := y == gy && gx <= x < gx + Min(g.tw, g.w - gx);
            && (Visited(g, ty, tx, r + 1, 0, y, x) <==> Visited(g, ty, tx, r, 0, y, x) || here)
            && (here ==> !Visited(g, ty, tx, r, 0, y, x))
  {
    TileBounds(x, g.tw, g.w);
    TilePlace(g.th, ty, r, y);
    if tx * g.tw <= x < tx * g.tw + g.tw { TilePlace(g.tw, tx, x - tx * g.tw, x); }
  }

  lemma MoveOn<T>(out: seq<T>, tile: (nat, nat) -> seq<T>, zero: T, g: Grid, ty: nat, tx: nat, r: nat,
                  ty': nat, tx': nat, r': nat)
    requires g.Valid() && StitchedUpTo(out, tile, zero, g, ty, tx, r)
    requires forall y, x :: InImage(g, y, x) ==> (Visited(g, ty, tx, r, 0, y, x) <==> Visited(g, ty', tx', r', 0, y, x))
    ensures StitchedUpTo(out, tile, zero, g, ty', tx', r')
  {
  }

  lemma RowFits(g: Grid, gy: nat, gx: nat, n: nat)
    requires gy < g.h && gx < g.w && gx + n <= g.w
    ensures 0 <= At(g.w, gy, gx) && At(g.w, gy, gx) + n <= g.w * g.h
  {
    AtInRange(g.w, g.h, gy, gx);
    assert At(g.w, gy, gx) + n <= At(g.w, gy + 1, 0);
  }

  /** Tiles of ones: stitching them counts the samples that a pixel gets. */
  function Ones<T>(tile: (nat, nat) -> seq<T>): (nat, nat) -> seq<nat> {
    (tx, ty) => seq(|tile(tx, ty)|, _ => 1)
  }

  /** One more write to each of `n` places. */
  function Written(writes: seq<nat>, from: nat, n: nat): seq<nat> {
    seq(|writes|, i requires 0 <= i < |writes| => writes[i] + if from <= i < from + n then 1 else 0)
  }

  /** `out.set(src, off)`, with a count of the writes to each place. */
  method CountedSet<T>(out: array<T>, src: seq<T>, off: nat, ghost writes0: seq<nat>) returns (ghost writes: seq<nat>)
    requires off + |src| <= out.Length
    modifies out
    ensures out[..] == old(out[..off]) + src + old(out[off + |src|..])
    ensures writes == Written(writes0, off, |src|)
  {
    Set(out, src, off);
    writes := Written(writes0, off, |src|);
  }

  /** The row is counted where it had not been. */
  lemma CountedRow<T>(before: seq<nat>, tile: (nat, nat) -> seq<T>, g: Grid,
                      ty: nat, tx: nat, r: nat, copyW: nat, sub: seq<T>, dst: nat)
    requires g.Valid() && tx * g.tw < g.w && r < Min(g.th, g.h - ty * g.th)
    requires copyW == Min(g.tw, g.w - tx * g.tw) && sub == Subarray(tile(tx, ty), r * g.tw, r * g.tw + copyW)
    requires dst == At(g.w, ty * g.th + r, tx * g.tw) && dst + |sub| <= |before|
    requires StitchedUpTo(before, Ones(tile), 0, g, ty, tx, r)
    ensures StitchedUpTo(Written(before, dst, |sub|), Ones(tile), 0, g, ty, tx, r + 1)
  {
    hide At, Visited, Stitched, Tile, Within, Ones, Written;
    var ones := Subarray(Ones(tile)(tx, ty), r * g.tw, r * g.tw + copyW);
    OnesAlong(tile, tx, ty, r * g.tw, r * g.tw + copyW);
    forall i | dst <= i < dst + |sub| ensures before[i] == 0 {
      NotCounted(before, tile, g, ty, tx, r, i - dst);
    }
    WrittenOver(before, dst, ones);
    CopiedRow(before, Written(before, dst, |sub|), Ones(tile), 0, g, ty, tx, r, copyW, ones, dst);
  }

  lemma NotCounted<T>(before: seq<nat>, tile: (nat, nat) -> seq<T>, g: Grid, ty: nat, tx: nat, r: nat, k: nat)
    requires g.Valid() && r < Min(g.th, g.h - ty * g.th) && k < Min(g.tw, g.w - tx * g.tw)
    requires StitchedUpTo(before, Ones(tile), 0, g, ty, tx, r)
    ensures 0 <= At(g.w, ty * g.th + r, tx * g.tw) + k < |before| && before[At(g.w, ty * g.th + r, tx * g.tw) + k] == 0
  {
    hide At, Visited, Stitched, Tile, Within, Ones;
    PlaceInImage(ty, r, g.th, g.h);
    NewlyVisited(g, ty, tx, r, ty * g.th + r, tx * g.tw + k);
    AtAlong(g.w, ty * g.th + r, tx * g.tw, k);
  }

  lemma OnesAlong<T>(tile: (nat, nat) -> seq<T>, tx: nat, ty: nat, from: nat, to: nat)
    requires from <= to
    ensures var ones := Subarray(Ones(tile)(tx, ty), from, to);
            |ones| == |Subarray(tile(tx, ty), from, to)| && forall k :: 0 <= k < |ones| ==> ones[k] == 1
  {
  }

  lemma WrittenOver(before: seq<nat>, dst: nat, ones: seq<nat>)
    requires dst + |ones| <= |before| && forall k :: 0 <= k < |ones| ==> ones[k] == 1
    requires forall i :: dst <= i < dst + |ones| ==> before[i] == 0
    ensures Written(before, dst, |ones|) == before[..dst] + ones + before[dst + |ones|..]
  {
  }

  lemma AtAlong(w: nat, y: int, x: int, k: int)
    ensures At(w, y, x + k) == At(w, y, x) + k
  {
  }

  /** The row loop over one tile. */
  method CopyTile<T>(out: array<T>, tile: (nat, nat) -> seq<T>, ghost zero: T, g: Grid, ty: nat, tx: nat,
                     ghost writes0: seq<nat>)
    returns (ghost writes: seq<nat>)
    requires g.Valid() && ty * g.th < g.h && tx * g.tw < g.w
    requires StitchedUpTo(out[..], tile, zero, g, ty, tx, 0)
    requires StitchedUpTo(writes0, Ones(tile), 0, g, ty, tx, 0)
    modifies out
    ensures StitchedUpTo(out[..], tile, zero, g, ty, tx + 1, 0)
    ensures StitchedUpTo(writes, Ones(tile), 0, g, ty, tx + 1, 0)
  {
    hide At, Visited, Stitched, Ones, Written;
    writes := writes0;
    var t := tile(tx, ty);
    var copyW := Min(g.tw, g.w - tx * g.tw);
    var copyH := Min(g.th, g.h - ty * g.th);
    for row := 0 to copyH
      invariant StitchedUpTo(out[..], tile, zero, g, ty, tx, row)
      invariant StitchedUpTo(writes, Ones(tile), 0, g, ty, tx, row)
    {
      var src := row * g.tw;
      PlaceInImage(ty, row, g.th, g.h);
      var dst := At(g.w, ty * g.th + row, tx * g.tw);
      var sub := Subarray(t, src, src + copyW);
      RowFits(g, ty * g.th + row, tx * g.tw, copyW);
      ghost var before, counted := out[..], writes;
      writes := CountedSet(out, sub, dst, writes);
      CopiedRow(before, out[..], tile, zero, g, ty, tx, row, copyW, sub, dst);
      CountedRow(counted, tile, g, ty, tx, row, copyW, sub, dst);
    }
    forall y, x | InImage(g, y, x)
      ensures Visited(g, ty, tx, copyH, 0, y, x) <==> Visited(g, ty, tx + 1, 0, 0, y, x)
    {
      VisitedTileEnd(g, ty, tx, y, x);
    }
    MoveOn(out[..], tile, zero, g, ty, tx, copyH, ty, tx + 1, 0);
    MoveOn(writes, Ones(tile), 0, g, ty, tx, copyH, ty, tx + 1, 0);
  }

  /** `assembleElevation`: pixel (x, y) is sample (y mod th) * tw + (x mod tw) of
      tile (x div tw, y div th), for every image and tile size. It is written exactly
      once, or not at all if the tile has no such sample. */
  method AssembleElevation<T>(tile: (nat, nat) -> seq<T>, zero: T, g: Grid)
    returns (out: array<T>, ghost writes: seq<nat>)
    requires g.Valid()
    ensures fresh(out) && StitchedImage(out[..], writes, tile, zero, g)
  {
    hide At, Visited, Stitched, Ones, HasSample;
    var tilesX, tilesY := CeilDiv(g.w, g.tw), CeilDiv(g.h, g.th);
    out := new T[g.w * g.h](_ => zero);
    writes := seq(g.w * g.h, _ => 0);
    NothingStitched(out[..], tile, zero, g);
    NothingStitched(writes, Ones(tile), 0, g);
    for ty := 0 to tilesY
      invariant StitchedUpTo(out[..], tile, zero, g, ty, 0, 0) && StitchedUpTo(writes, Ones(tile), 0, g, ty, 0, 0)
    {
      TileStarts(ty, g.th, g.h);
      for tx := 0 to tilesX
        invariant StitchedUpTo(out[..], tile, zero, g, ty, tx, 0) && StitchedUpTo(writes, Ones(tile), 0, g, ty, tx, 0)
      {
        TileStarts(tx, g.tw, g.w);
        writes := CopyTile(out, tile, zero, g, ty, tx, writes);
      }
      forall y, x | InImage(g, y, x)
        ensures Visited(g, ty, tilesX, 0, 0, y, x) <==> Visited(g, ty + 1, 0, 0, 0, y, x)
      {
        VisitedTileRowEnd(g, ty, y, x);
      }
      MoveOn(out[..], tile, zero, g, ty, tilesX, 0, ty + 1, 0, 0);
      MoveOn(writes, Ones(tile), 0, g, ty, tilesX, 0, ty + 1, 0, 0);
    }
    AllStitched(out[..], tile, zero, g);
    AllStitched(writes, Ones(tile), 0, g);
    forall y, x | InImage(g, y, x)
      ensures Stitched(Ones(tile), 0, g, y, x) == if HasSample(tile, g, y, x) then 1 else 0
    {
      OneIfSample(tile, g, y, x);
    }
    ImageStitched(out[..], writes, tile, zero, g);
  }

  /** Every pixel, and how often it was written. */
  ghost predicate StitchedImage<T>(out: seq<T>, writes: seq<nat>, tile: (nat, nat) -> seq<T>, zero: T, g: Grid)
    requires g.Valid()
  {
    && |out| == |writes| == g.w * g.h
    && forall y, x | 0 <= y < g.h && 0 <= x < g.w ::
         && At(g.w, y, x) == y * g.w + x && 0 <= At(g.w, y, x) < |out|
         && var t, k := tile(x / g.tw, y / g.th), (y % g.th) * g.tw + x % g.tw;
            && out[At(g.w, y, x)] == (if k < |t| then t[k] else zero)
            && writes[At(g.w, y, x)] == (if k < |t| then 1 else 0)
  }

  lemma ImageStitched<T>(out: seq<T>, writes: seq<nat>, tile: (nat, nat) -> seq<T>, zero: T, g: Grid)
    requires g.Valid() && |out| == |writes| == g.w * g.h
    requires forall y, x :: InImage(g, y, x) ==>
                              0 <= At(g.w, y, x) < |out| && out[At(g.w, y, x)] == Stitched(tile, zero, g, y, x)
    requires forall y, x :: InImage(g, y, x) ==>
                              && 0 <= At(g.w, y, x) < |writes|
                              && writes[At(g.w, y, x)] == if HasSample(tile, g, y, x) then 1 else 0
    ensures StitchedImage(out, writes, tile, zero, g)
  {
    forall y, x | 0 <= y < g.h && 0 <= x < g.w
      ensures && At(g.w, y, x) == y * g.w + x && 0 <= At(g.w, y, x) < |out|
              && var t, k := tile(x / g.tw, y / g.th), (y % g.th) * g.tw + x % g.tw;
                 && out[At(g.w, y, x)] == (if k < |t| then t[k] else zero)
                 && writes[At(g.w, y, x)] == (if k < |t| then 1 else 0)
    {
      assert InImage(g, y, x);
    }
  }

  /** The tile under a pixel reaches as far as the pixel. */
  predicate HasSample<T>(tile: (nat, nat) -> seq<T>, g: Grid, y: nat, x: nat)
    requires g.Valid()
  {
    Within(y, g.th) * g.tw + Within(x, g.tw) < |tile(Tile(x, g.tw), Tile(y, g.th))|
  }

  lemma OneIfSample<T>(tile: (nat, nat) -> seq<T>, g: Grid, y: nat, x: nat)
    requires g.Valid()
    ensures Stitched(Ones(tile), 0, g, y, x) == if HasSample(tile, g, y, x) then 1 else 0
  {
    hide Tile, Within;
  }

  lemma NothingStitched<T>(out: seq<T>, tile: (nat, nat) -> seq<T>, zero: T, g: Grid)
    requires g.Valid() && |out| == g.w * g.h && forall i :: 0 <= i < |out| ==> out[i] == zero
    ensures StitchedUpTo(out, tile, zero, g, 0, 0, 0)
  {
    hide At;
    forall y, x | InImage(g, y, x)
      ensures 0 <= At(g.w, y, x) < |out| && !Visited(g, 0, 0, 0, 0, y, x)
    {
      AtInRange(g.w, g.h, y, x);
    }
  }

  lemma AllStitched<T>(out: seq<T>, tile: (nat, nat) -> seq<T>, zero: T, g: Grid)
    requires g.Valid() && StitchedUpTo(out, tile, zero, g, CeilDiv(g.h, g.th), 0, 0)
    ensures forall y, x :: InImage(g, y, x) ==>
                             0 <= At(g.w, y, x) < |out| && out[At(g.w, y, x)] == Stitched(tile, zero, g, y, x)
  {
    forall y, x | InImage(g, y, x) ensures Visited(g, CeilDiv(g.h, g.th), 0, 0, 0, y, x) {
      VisitedEnd(g, y, x);
    }
    hide Visited;
  }

  // -------------------------------------------------------------- masked stitch

  /** A JavaScript number from a Float32Array, and `undefined` past its end. */
  datatype Sample = Num(value: real) | NaN | PosInf | NegInf | Undefined

  const NODATA: real := -32768.0
  const HUGE: real := 1000000000000000000000000000000.0

  /** The negation of the nodata test; comparisons with NaN are false. */
  predicate IsValid(v: Sample) {
    v.Num? && !(v.value <= NODATA + 1.0) && !(v.value < -HUGE) && !(v.value > HUGE)
  }

  /** Reading a tile gives its samples or fails. */
  datatype Tiles = Tiles(read: (nat, nat) -> Reading)
  datatype Reading = Failed | Samples(s: seq<Sample>)

  function ReadAt(tiles: Tiles, g: Grid, y: nat, x: nat): Reading
    requires g.Valid()
  {
    tiles.read(Tile(x, g.tw), Tile(y, g.th))
  }

  function SampleAt(s: seq<Sample>, k: nat): Sample {
    if k < |s| then s[k] else Undefined
  }

  /** The sample under a pixel of a tile that was read. */
  function PixelSample(tiles: Tiles, g: Grid, y: nat, x: nat): Sample
    requires g.Valid()
  {
    match ReadAt(tiles, g, y, x)
    case Failed => Undefined
    case Samples(s) => SampleAt(s, Within(y, g.th) * g.tw + Within(x, g.tw))
  }

  predicate ValidPixel(tiles: Tiles, g: Grid, y: nat, x: nat)
    requires g.Valid()
  {
    IsValid(PixelSample(tiles, g, y, x))
  }

  /** What the scan leaves at a pixel before nodata cells are filled. */
  datatype Cell = Cell(elev: Sample, mask: int)

  const BLANK: Cell := Cell(Num(0.0), 0)

  function Scanned(tiles: Tiles, g: Grid, y: nat, x: nat): Cell
    requires g.Valid()
  {
    if ReadAt(tiles, g, y, x).Failed? then BLANK
    else if ValidPixel(tiles, g, y, x) then Cell(PixelSample(tiles, g, y, x), 1)
    else Cell(NaN, 0)
  }

  ghost predicate ScannedUpTo(elev: seq<Sample>, mask: seq<int>, tiles: Tiles, g: Grid,
                              ty: nat, tx: nat, r: nat, c: nat)
    requires g.Valid()
  {
    && |elev| == |mask| == g.w * g.h
    && forall y, x :: InImage(g, y, x) ==>
                        && 0 <= At(g.w, y, x) < |elev|
                        && Cell(elev[At(g.w, y, x)], mask[At(g.w, y, x)]) ==
                           if Visited(g, ty, tx, r, c, y, x) then Scanned(tiles, g, y, x) else BLANK
  }

  /** Each pixel passed was written once if its tile was read, and no other was. */
  ghost predicate WrittenUpTo(writes: seq<nat>, tiles: Tiles, g: Grid, ty: nat, tx: nat, r: nat, c: nat)
    requires g.Valid()
  {
    && |writes| == g.w * g.h
    && forall y, x :: InImage(g, y, x) ==>
                        && 0 <= At(g.w, y, x) < |writes|
                        && writes[At(g.w, y, x)] ==
                           if Visited(g, ty, tx, r, c, y, x) && ReadAt(tiles, g, y, x).Samples? then 1 else 0
  }

  lemma WrittenPixel(writes: seq<nat>, tiles: Tiles, g: Grid, ty: nat, tx: nat, r: nat, c: nat)
    requires g.Valid() && r < Min(g.th, g.h - ty * g.th) && c < Min(g.tw, g.w - tx * g.tw)
    requires tiles.read(tx, ty).Samples? && WrittenUpTo(writes, tiles, g, ty, tx, r, c)
    requires 0 <= At(g.w, ty * g.th + r, tx * g.tw + c) < |writes|
    ensures WrittenUpTo(Written(writes, At(g.w, ty * g.th + r, tx * g.tw + c), 1), tiles, g, ty, tx, r, c + 1)
  {
    hide At, Visited;
    var gy, gx := ty * g.th + r, tx * g.tw + c;
    PlaceInImage(ty, r, g.th, g.h);
    PlaceInImage(tx, c, g.tw, g.w);
    hide Tile, Within;
    VisitedStep(g, ty, tx, r, c, gy, gx);
    forall y, x | InImage(g, y, x)
      ensures && 0 <= At(g.w, y, x) < |writes|
              && Written(writes, At(g.w, gy, gx), 1)[At(g.w, y, x)] ==
                 if Visited(g, ty, tx, r, c + 1, y, x) && ReadAt(tiles, g, y, x).Samples? then 1 else 0
    {
      VisitedStep(g, ty, tx, r, c, y, x);
      if At(g.w, y, x) == At(g.w, gy, gx) { AtInjective(g.w, g.h, y, x, gy, gx); }
    }
  }

  lemma ManyPixels(writes: seq<nat>, tiles: Tiles, g: Grid, ty: nat, tx: nat, r: nat, c: nat)
    requires g.Valid() && WrittenUpTo(writes, tiles, g, ty, tx, r, c)
    ensures |writes| == g.w * g.h
  {
  }

  lemma WrittenSkipped(writes: seq<nat>, tiles: Tiles, g: Grid, ty: nat, tx: nat)
    requires g.Valid() && tiles.read(tx, ty).Failed? && WrittenUpTo(writes, tiles, g, ty, tx, 0, 0)
    ensures WrittenUpTo(writes, tiles, g, ty, tx + 1, 0, 0)
  {
    hide At, Visited, ReadAt, ValidPixel;
    forall y, x | InImage(g, y, x)
      ensures Visited(g, ty, tx + 1, 0, 0, y, x) && ReadAt(tiles, g, y, x).Samples? <==>
              Visited(g, ty, tx, 0, 0, y, x) && ReadAt(tiles, g, y, x).Samples?
    {
      SkippedPixel(tiles, g, ty, tx, y, x);
    }
  }

  /** `lo` and `hi` bound the valid samples met so far and are attained by them;
      None stands for the infinities the scan starts with. */
  datatype Extremes = NoneYet | Extremes(lo: real, hi: real)

  ghost predicate Met(tiles: Tiles, g: Grid, ty: nat, tx: nat, r: nat, c: nat, y: int, x: int, v: real)
    requires g.Valid()
  {
    InImage(g, y, x) && Visited(g, ty, tx, r, c, y, x) && ValidPixel(tiles, g, y, x) &&
    PixelSample(tiles, g, y, x) == Num(v)
  }

  ghost predicate ExtremesUpTo(e: Extremes, tiles: Tiles, g: Grid, ty: nat, tx: nat, r: nat, c: nat)
    requires g.Valid()
  {
    match e
    case NoneYet => forall y, x, v :: !Met(tiles, g, ty, tx, r, c, y, x, v)
    case Extremes(lo, hi) =>
      && (forall y, x, v :: Met(tiles, g, ty, tx, r, c, y, x, v) ==> lo <= v <= hi)
      && (exists y, x :: Met(tiles, g, ty, tx, r, c, y, x, lo))
      && (exists y, x :: Met(tiles, g, ty, tx, r, c, y, x, hi))
  }

  function Widen(e: Extremes, v: real): Extremes {
    match e
    case NoneYet => Extremes(v, v)
    case Extremes(lo, hi) => Extremes(if v < lo then v else lo, if v > hi then v else hi)
  }

  /** The body of the innermost loop: classify one sample and store it. */
  method StoreSample(elev: array<Sample>, mask: array<int>, gi: nat, v: Sample, e: Extremes, ghost writes: seq<nat>)
    returns (e': Extremes, ghost writes': seq<nat>)
    requires gi < elev.Length == mask.Length
    modifies elev, mask
    ensures elev[..] == old(elev[..])[gi := if IsValid(v) then v else NaN]
    ensures mask[..] == if IsValid(v) then old(mask[..])[gi := 1] else old(mask[..])
    ensures e' == if IsValid(v) then Widen(e, v.value) else e
    ensures writes' == Written(writes, gi, 1)
  {
    e', writes' := e, Written(writes, gi, 1);
    if !IsValid(v) {
      elev[gi] := NaN;
    } else {
      elev[gi] := v;
      mask[gi] := 1;
      e' := Widen(e, v.value);
    }
  }

  /** Storing the sample at place (r, c) of tile (tx, ty) advances the scan by one pixel. */
  lemma StoredPixel(elev: seq<Sample>, mask: seq<int>, elev': seq<Sample>, mask': seq<int>, tiles: Tiles, g: Grid,
                    ty: nat, tx: nat, r: nat, c: nat, v: Sample)
    requires g.Valid() && r < Min(g.th, g.h - ty * g.th) && c < Min(g.tw, g.w - tx * g.tw)
    requires tiles.read(tx, ty).Samples? && v == SampleAt(tiles.read(tx, ty).s, r * g.tw + c)
    requires ScannedUpTo(elev, mask, tiles, g, ty, tx, r, c)
    requires 0 <= At(g.w, ty * g.th + r, tx * g.tw + c) < |elev|
    requires var gi := At(g.w, ty * g.th + r, tx * g.tw + c);
             elev' == elev[gi := if IsValid(v) then v else NaN] && mask' == if IsValid(v) then mask[gi := 1] else mask
    ensures ScannedUpTo(elev', mask', tiles, g, ty, tx, r, c + 1)
  {
    hide At, Visited, IsValid;
    var gy, gx := ty * g.th + r, tx * g.tw + c;
    PlaceInImage(ty, r, g.th, g.h);
    PlaceInImage(tx, c, g.tw, g.w);
    hide Tile, Within;
    VisitedStep(g, ty, tx, r, c, gy, gx);
    assert Cell(elev[At(g.w, gy, gx)], mask[At(g.w, gy, gx)]) == BLANK;
    assert PixelSample(tiles, g, gy, gx) == v;
    forall y, x | InImage(g, y, x)
      ensures && 0 <= At(g.w, y, x) < |elev'|
              && Cell(elev'[At(g.w, y, x)], mask'[At(g.w, y, x)]) ==
                 if Visited(g, ty, tx, r, c + 1, y, x) then Scanned(tiles, g, y, x) else BLANK
    {
      VisitedStep(g, ty, tx, r, c, y, x);
      if At(g.w, y, x) == At(g.w, gy, gx) { AtInjective(g.w, g.h, y, x, gy, gx); }
    }
  }

  lemma MetStep(tiles: Tiles, g: Grid, ty: nat, tx: nat, r: nat, c: nat, y: int, x: int, v: real)
    requires g.Valid() && r < Min(g.th, g.h - ty * g.th) && c < Min(g.tw, g.w - tx * g.tw)
    ensures Met(tiles, g, ty, tx, r, c + 1, y, x, v) <==>
            || Met(tiles, g, ty, tx, r, c, y, x, v)
            || (y == ty * g.th + r && x == tx * g.tw + c && ValidPixel(tiles, g, y, x) &&
                PixelSample(tiles, g, y, x) == Num(v))
  {
    hide Visited, ValidPixel, PixelSample;
    PlaceInImage(ty, r, g.th, g.h);
    PlaceInImage(tx, c, g.tw, g.w);
    if InImage(g, y, x) { VisitedStep(g, ty, tx, r, c, y, x); }
  }

  lemma WidenedExtremes(e: Extremes, tiles: Tiles, g: Grid, ty: nat, tx: nat, r: nat, c: nat, v: Sample)
    requires g.Valid() && r < Min(g.th, g.h - ty * g.th) && c < Min(g.tw, g.w - tx * g.tw)
    requires v == PixelSample(tiles, g, ty * g.th + r, tx * g.tw + c)
    requires ExtremesUpTo(e, tiles, g, ty, tx, r, c)
    ensures ExtremesUpTo(if IsValid(v) then Widen(e, v.value) else e, tiles, g, ty, tx, r, c + 1)
  {
    hide Met, IsValid, PixelSample;
    var gy, gx := ty * g.th + r, tx * g.tw + c;
    var next := c + 1;
    forall y, x, u | Met(tiles, g, ty, tx, r, next, y, x, u)
      ensures Met(tiles, g, ty, tx, r, c, y, x, u) || (IsValid(v) && v == Num(u))
    {
      MetStep(tiles, g, ty, tx, r, c, y, x, u);
    }
    if e.Extremes? {
      var ly, lx :| Met(tiles, g, ty, tx, r, c, ly, lx, e.lo);
      var hy, hx :| Met(tiles, g, ty, tx, r, c, hy, hx, e.hi);
      MetStep(tiles, g, ty, tx, r, c, ly, lx, e.lo);
      MetStep(tiles, g, ty, tx, r, c, hy, hx, e.hi);
    }
    if IsValid(v) {
      ValidIsNumber(v);
      MetStep(tiles, g, ty, tx, r, c, gy, gx, v.value);
      assert Met(tiles, g, ty, tx, r, c + 1, gy, gx, v.value);
    }
  }

  lemma ValidIsNumber(v: Sample)
    requires IsValid(v)
    ensures v.Num?
  {
  }

  /** Positions of the loops that have passed the same pixels are interchangeable. */
  lemma ScanMoveOn(elev: seq<Sample>, mask: seq<int>, writes: seq<nat>, e: Extremes, tiles: Tiles, g: Grid,
                   ty: nat, tx: nat, r: nat, c: nat, ty': nat, tx': nat, r': nat, c': nat)
    requires g.Valid() && Scan(elev, mask, writes, e, tiles, g, ty, tx, r, c)
    requires forall y, x :: InImage(g, y, x) ==>
               (Visited(g, ty, tx, r, c, y, x) <==> Visited(g, ty', tx', r', c', y, x))
    ensures Scan(elev, mask, writes, e, tiles, g, ty', tx', r', c')
  {
    forall y, x, v ensures Met(tiles, g, ty, tx, r, c, y, x, v) <==> Met(tiles, g, ty', tx', r', c', y, x, v) {
      hide Visited;
    }
    hide Visited, Met, Scanned, ReadAt;
  }

  /** State of the scan at a loop position. */
  ghost predicate Scan(elev: seq<Sample>, mask: seq<int>, writes: seq<nat>, e: Extremes, tiles: Tiles, g: Grid,
                       ty: nat, tx: nat, r: nat, c: nat)
    requires g.Valid()
  {
    && ScannedUpTo(elev, mask, tiles, g, ty, tx, r, c)
    && WrittenUpTo(writes, tiles, g, ty, tx, r, c)
    && ExtremesUpTo(e, tiles, g, ty, tx, r, c)
  }

  /** The column loop over one row of a tile. */
  method ScanTileRow(elev: array<Sample>, mask: array<int>, tiles: Tiles, g: Grid, ty: nat, tx: nat, r: nat,
                     tileElev: seq<Sample>, e0: Extremes, ghost writes0: seq<nat>)
    returns (e: Extremes, ghost writes: seq<nat>)
    requires g.Valid() && r < Min(g.th, g.h - ty * g.th) && tx * g.tw < g.w
    requires tiles.read(tx, ty) == Samples(tileElev)
    requires Scan(elev[..], mask[..], writes0, e0, tiles, g, ty, tx, r, 0)
    modifies elev, mask
    ensures Scan(elev[..], mask[..], writes, e, tiles, g, ty, tx, r + 1, 0)
  {
    hide At, Visited, IsValid, ExtremesUpTo, WrittenUpTo, PixelSample, Written;
    e, writes := e0, writes0;
    var cols := Min(g.tw, g.w - tx * g.tw);
    for c := 0 to cols
      invariant Scan(elev[..], mask[..], writes, e, tiles, g, ty, tx, r, c)
    {
      var gy, gx := ty * g.th + r, tx * g.tw + c;
      PlaceInImage(ty, r, g.th, g.h);
      PlaceInImage(tx, c, g.tw, g.w);
      AtInRange(g.w, g.h, gy, gx);
      var v := SampleAt(tileElev, r * g.tw + c);
      SampleOfPlace(tiles, g, ty, tx, r, c, tileElev);
      ghost var elevBefore, maskBefore, eBefore, writesBefore := elev[..], mask[..], e, writes;
      e, writes := StoreSample(elev, mask, At(g.w, gy, gx), v, e, writes);
      StoredPixel(elevBefore, maskBefore, elev[..], mask[..], tiles, g, ty, tx, r, c, v);
      WidenedExtremes(eBefore, tiles, g, ty, tx, r, c, v);
      ManyPixels(writesBefore, tiles, g, ty, tx, r, c);
      WrittenPixel(writesBefore, tiles, g, ty, tx, r, c);
    }
    forall y, x | InImage(g, y, x) ensures Visited(g, ty, tx, r, cols, y, x) <==> Visited(g, ty, tx, r + 1, 0, y, x) {
      VisitedRowEnd(g, ty, tx, r, y, x);
    }
    ScanMoveOn(elev[..], mask[..], writes, e, tiles, g, ty, tx, r, cols, ty, tx, r + 1, 0);
  }

  lemma SampleOfPlace(tiles: Tiles, g: Grid, ty: nat, tx: nat, r: nat, c: nat, s: seq<Sample>)
    requires g.Valid() && r < g.th && c < g.tw && tiles.read(tx, ty) == Samples(s)
    ensures PixelSample(tiles, g, ty * g.th + r, tx * g.tw + c) == SampleAt(s, r * g.tw + c)
  {
    TilePlace(g.th, ty, r, ty * g.th + r);
    TilePlace(g.tw, tx, c, tx * g.tw + c);
    hide Tile, Within;
  }

  /** The row loop over one tile; a tile that cannot be read is skipped. */
  method ScanTile(elev: array<Sample>, mask: array<int>, tiles: Tiles, g: Grid, ty: nat, tx: nat, e0: Extremes,
                  ghost writes0: seq<nat>)
    returns (e: Extremes, ghost writes: seq<nat>)
    requires g.Valid() && ty * g.th < g.h && tx * g.tw < g.w
    requires Scan(elev[..], mask[..], writes0, e0, tiles, g, ty, tx, 0, 0)
    modifies elev, mask
    ensures Scan(elev[..], mask[..], writes, e, tiles, g, ty, tx + 1, 0, 0)
  {
    hide Scan, Visited;
    e, writes := e0, writes0;
    var reading := tiles.read(tx, ty);
    if reading.Failed? {
      SkippedTile(elev[..], mask[..], writes, e, tiles, g, ty, tx);
      return;
    }
    var rows := Min(g.th, g.h - ty * g.th);
    for r := 0 to rows
      invariant Scan(elev[..], mask[..], writes, e, tiles, g, ty, tx, r, 0)
    {
      e, writes := ScanTileRow(elev, mask, tiles, g, ty, tx, r, reading.s, e, writes);
    }
    TileDone(elev[..], mask[..], writes, e, tiles, g, ty, tx, rows);
  }

  lemma TileDone(elev: seq<Sample>, mask: seq<int>, writes: seq<nat>, e: Extremes, tiles: Tiles, g: Grid, ty: nat,
                 tx: nat, rows: nat)
    requires g.Valid() && ty * g.th < g.h && rows == Min(g.th, g.h - ty * g.th)
    requires Scan(elev, mask, writes, e, tiles, g, ty, tx, rows, 0)
    ensures Scan(elev, mask, writes, e, tiles, g, ty, tx + 1, 0, 0)
  {
    hide Visited, ScannedUpTo, WrittenUpTo, ExtremesUpTo, Scan;
    forall y, x | InImage(g, y, x) ensures Visited(g, ty, tx, rows, 0, y, x) <==> Visited(g, ty, tx + 1, 0, 0, y, x) {
      VisitedTileEnd(g, ty, tx, y, x);
    }
    ScanMoveOn(elev, mask, writes, e, tiles, g, ty, tx, rows, 0, ty, tx + 1, 0, 0);
  }

  /** The pixels of a failed tile are blank and never valid, so passing it over
      leaves the scan as it should be. */
  lemma SkippedTile(elev: seq<Sample>, mask: seq<int>, writes: seq<nat>, e: Extremes, tiles: Tiles, g: Grid, ty: nat,
                    tx: nat)
    requires g.Valid() && tiles.read(tx, ty).Failed?
    requires Scan(elev, mask, writes, e, tiles, g, ty, tx, 0, 0)
    ensures Scan(elev, mask, writes, e, tiles, g, ty, tx + 1, 0, 0)
  {
    SkippedScan(elev, mask, tiles, g, ty, tx);
    SkippedExtremes(e, tiles, g, ty, tx);
    WrittenSkipped(writes, tiles, g, ty, tx);
    hide ScannedUpTo, WrittenUpTo, ExtremesUpTo;
  }

  lemma SkippedScan(elev: seq<Sample>, mask: seq<int>, tiles: Tiles, g: Grid, ty: nat, tx: nat)
    requires g.Valid() && tiles.read(tx, ty).Failed?
    requires ScannedUpTo(elev, mask, tiles, g, ty, tx, 0, 0)
    ensures ScannedUpTo(elev, mask, tiles, g, ty, tx + 1, 0, 0)
  {
    hide At, Visited, ReadAt, ValidPixel, PixelSample;
    forall y, x | InImage(g, y, x)
      ensures && 0 <= At(g.w, y, x) < |elev|
              && Cell(elev[At(g.w, y, x)], mask[At(g.w, y, x)]) ==
                 if Visited(g, ty, tx + 1, 0, 0, y, x) then Scanned(tiles, g, y, x) else BLANK
    {
      SkippedPixel(tiles, g, ty, tx, y, x);
    }
  }

  lemma SkippedExtremes(e: Extremes, tiles: Tiles, g: Grid, ty: nat, tx: nat)
    requires g.Valid() && tiles.read(tx, ty).Failed?
    requires ExtremesUpTo(e, tiles, g, ty, tx, 0, 0)
    ensures ExtremesUpTo(e, tiles, g, ty, tx + 1, 0, 0)
  {
    hide Met;
    var next := tx + 1;
    forall y, x, v | Met(tiles, g, ty, next, 0, 0, y, x, v) ensures Met(tiles, g, ty, tx, 0, 0, y, x, v) {
      SkippedMet(tiles, g, ty, tx, y, x, v);
    }
    if e.Extremes? {
      var ly, lx :| Met(tiles, g, ty, tx, 0, 0, ly, lx, e.lo);
      var hy, hx :| Met(tiles, g, ty, tx, 0, 0, hy, hx, e.hi);
      SkippedMet(tiles, g, ty, tx, ly, lx, e.lo);
      SkippedMet(tiles, g, ty, tx, hy, hx, e.hi);
    }
  }

  lemma SkippedMet(tiles: Tiles, g: Grid, ty: nat, tx: nat, y: int, x: int, v: real)
    requires g.Valid() && tiles.read(tx, ty).Failed?
    ensures Met(tiles, g, ty, tx, 0, 0, y, x, v) <==> Met(tiles, g, ty, tx + 1, 0, 0, y, x, v)
  {
    hide Visited, ValidPixel, PixelSample;
    if InImage(g, y, x) { SkippedPixel(tiles, g, ty, tx, y, x); }
  }

  lemma SkippedPixel(tiles: Tiles, g: Grid, ty: nat, tx: nat, y: nat, x: nat)
    requires g.Valid() && tiles.read(tx, ty).Failed?
    ensures Visited(g, ty, tx + 1, 0, 0, y, x) ==>
              Visited(g, ty, tx, 0, 0, y, x) || (ReadAt(tiles, g, y, x).Failed? && !ValidPixel(tiles, g, y, x))
    ensures Visited(g, ty, tx, 0, 0, y, x) ==> Visited(g, ty, tx + 1, 0, 0, y, x)
  {
    hide Tile, Within;
  }

  /** The four nested loops. */
  method ScanTiles(elev: array<Sample>, mask: array<int>, tiles: Tiles, g: Grid)
    returns (e: Extremes, ghost writes: seq<nat>)
    requires g.Valid() && elev.Length == mask.Length == g.w * g.h
    requires forall i :: 0 <= i < elev.Length ==> elev[i] == Num(0.0) && mask[i] == 0
    modifies elev, mask
    ensures Scan(elev[..], mask[..], writes, e, tiles, g, CeilDiv(g.h, g.th), 0, 0, 0)
    ensures WrittenOnce(writes, tiles, g)
  {
    hide Scan, Visited;
    var nTilesX, nTilesY := CeilDiv(g.w, g.tw), CeilDiv(g.h, g.th);
    e, writes := NoneYet, seq(g.w * g.h, _ => 0);
    ScanStart(elev[..], mask[..], writes, tiles, g);
    for ty := 0 to nTilesY
      invariant Scan(elev[..], mask[..], writes, e, tiles, g, ty, 0, 0, 0)
    {
      TileStarts(ty, g.th, g.h);
      for tx := 0 to nTilesX
        invariant Scan(elev[..], mask[..], writes, e, tiles, g, ty, tx, 0, 0)
      {
        TileStarts(tx, g.tw, g.w);
        e, writes := ScanTile(elev, mask, tiles, g, ty, tx, e, writes);
      }
      TileRowDone(elev[..], mask[..], writes, e, tiles, g, ty);
    }
    AllWritten(elev[..], mask[..], writes, e, tiles, g);
  }

  /** Each pixel of a tile that was read was written exactly once, and no other. */
  ghost predicate WrittenOnce(writes: seq<nat>, tiles: Tiles, g: Grid)
    requires g.Valid()
  {
    && |writes| == g.w * g.h
    && forall y, x :: InImage(g, y, x) ==>
                        && 0 <= At(g.w, y, x) < |writes|
                        && writes[At(g.w, y, x)] == if ReadAt(tiles, g, y, x).Samples? then 1 else 0
  }

  lemma AllWritten(elev: seq<Sample>, mask: seq<int>, writes: seq<nat>, e: Extremes, tiles: Tiles, g: Grid)
    requires g.Valid() && Scan(elev, mask, writes, e, tiles, g, CeilDiv(g.h, g.th), 0, 0, 0)
    ensures WrittenOnce(writes, tiles, g)
  {
    hide At, ReadAt, ScannedUpTo, ExtremesUpTo;
    var n := CeilDiv(g.h, g.th);
    forall y, x | InImage(g, y, x) ensures Visited(g, n, 0, 0, 0, y, x) {
      VisitedEnd(g, y, x);
    }
    hide Visited;
  }

  lemma ScanStart(elev: seq<Sample>, mask: seq<int>, writes: seq<nat>, tiles: Tiles, g: Grid)
    requires g.Valid() && |elev| == |mask| == |writes| == g.w * g.h
    requires forall i :: 0 <= i < |elev| ==> elev[i] == Num(0.0) && mask[i] == 0 && writes[i] == 0
    ensures Scan(elev, mask, writes, NoneYet, tiles, g, 0, 0, 0, 0)
  {
    hide At;
    forall y, x | InImage(g, y, x) ensures 0 <= At(g.w, y, x) < |elev| && !Visited(g, 0, 0, 0, 0, y, x) {
      AtInRange(g.w, g.h, y, x);
    }
    hide Visited;
  }

  lemma TileRowDone(elev: seq<Sample>, mask: seq<int>, writes: seq<nat>, e: Extremes, tiles: Tiles, g: Grid, ty: nat)
    requires g.Valid() && Scan(elev, mask, writes, e, tiles, g, ty, CeilDiv(g.w, g.tw), 0, 0)
    ensures Scan(elev, mask, writes, e, tiles, g, ty + 1, 0, 0, 0)
  {
    hide Visited, ScannedUpTo, WrittenUpTo, ExtremesUpTo, Scan;
    forall y, x | InImage(g, y, x)
      ensures Visited(g, ty, CeilDiv(g.w, g.tw), 0, 0, y, x) <==> Visited(g, ty + 1, 0, 0, 0, y, x)
    {
      VisitedTileRowEnd(g, ty, y, x);
    }
    ScanMoveOn(elev, mask, writes, e, tiles, g, ty, CeilDiv(g.w, g.tw), 0, 0, ty + 1, 0, 0, 0);
  }

  datatype Grids = NoValidSamples | Grids(elev: array<Sample>, mask: array<int>, min: real, max: real)

  /** Some pixel of the image is valid and holds `v`. */
  ghost predicate HasValid(tiles: Tiles, g: Grid, v: real)
    requires g.Valid()
  {
    exists y, x :: InImage(g, y, x) && ValidPixel(tiles, g, y, x) && PixelSample(tiles, g, y, x) == Num(v)
  }

  /** What a finished pixel holds. */
  function Finished(tiles: Tiles, g: Grid, min: real, y: nat, x: nat): Cell
    requires g.Valid()
  {
    if ReadAt(tiles, g, y, x).Failed? then Cell(Num(0.0), 0)
    else if ValidPixel(tiles, g, y, x) then Cell(PixelSample(tiles, g, y, x), 1)
    else Cell(Num(min), 0)
  }

  ghost predicate CellsFinished(elev: seq<Sample>, mask: seq<int>, min: real, tiles: Tiles, g: Grid)
    requires g.Valid()
  {
    && |elev| == |mask| == g.w * g.h
    && forall y, x :: InImage(g, y, x) ==>
                        && 0 <= At(g.w, y, x) < |elev|
                        && Cell(elev[At(g.w, y, x)], mask[At(g.w, y, x)]) == Finished(tiles, g, min, y, x)
  }

  ghost predicate CellsScanned(elev: seq<Sample>, mask: seq<int>, tiles: Tiles, g: Grid)
    requires g.Valid()
  {
    && |elev| == |mask| == g.w * g.h
    && forall y, x :: InImage(g, y, x) ==>
                        && 0 <= At(g.w, y, x) < |elev|
                        && Cell(elev[At(g.w, y, x)], mask[At(g.w, y, x)]) == Scanned(tiles, g, y, x)
  }

  ghost predicate TrueExtremes(e: Extremes, tiles: Tiles, g: Grid)
    requires g.Valid()
  {
    match e
    case NoneYet => forall v :: !HasValid(tiles, g, v)
    case Extremes(lo, hi) =>
      HasValid(tiles, g, lo) && HasValid(tiles, g, hi) && forall v :: HasValid(tiles, g, v) ==> lo <= v <= hi
  }

  /** The pixel lies in a tile that was read and has there a number that is neither
      nodata nor beyond 10^30. */
  ghost predicate Usable(tiles: Tiles, g: Grid, y: int, x: int, v: real)
    requires g.Valid()
  {
    && 0 <= y < g.h && 0 <= x < g.w
    && -32767.0 < v <= 1000000000000000000000000000000.0
    && var t, k := tiles.read(x / g.tw, y / g.th), (y % g.th) * g.tw + x % g.tw;
       t.Samples? && k < |t.s| && t.s[k] == Num(v)
  }

  /** What a pixel holds: its usable sample if there is one, otherwise `min` in a tile
      that was read, and zero in a failed one. */
  ghost predicate PixelOf(elev: Sample, mask: int, tiles: Tiles, g: Grid, min: real, y: nat, x: nat)
    requires g.Valid()
  {
    if exists v :: Usable(tiles, g, y, x, v) then mask == 1 && elev.Num? && Usable(tiles, g, y, x, elev.value)
    else mask == 0 && elev == if tiles.read(x / g.tw, y / g.th).Failed? then Num(0.0) else Num(min)
  }

  ghost predicate PixelsOf(elev: seq<Sample>, mask: seq<int>, tiles: Tiles, g: Grid, min: real)
    requires g.Valid()
  {
    && |elev| == |mask| == g.w * g.h
    && forall y, x | 0 <= y < g.h && 0 <= x < g.w ::
         && At(g.w, y, x) == y * g.w + x && 0 <= At(g.w, y, x) < |elev|
         && PixelOf(elev[At(g.w, y, x)], mask[At(g.w, y, x)], tiles, g, min, y, x)
  }

  /** The extremes of the usable samples, with the maximum raised in a flat scene. */
  ghost predicate ExtremesOf(min: real, max: real, tiles: Tiles, g: Grid)
    requires g.Valid()
  {
    && (forall y, x, v :: Usable(tiles, g, y, x, v) ==> min <= v <= max)
    && (exists y, x :: Usable(tiles, g, y, x, min))
    && if forall y, x, v :: Usable(tiles, g, y, x, v) ==> v == min then max == min + 1.0
       else exists y, x :: Usable(tiles, g, y, x, max)
  }

  lemma UsableIffValid(tiles: Tiles, g: Grid, y: int, x: int, v: real)
    requires g.Valid()
    ensures Usable(tiles, g, y, x, v) <==>
            InImage(g, y, x) && ValidPixel(tiles, g, y, x) && PixelSample(tiles, g, y, x) == Num(v)
  {
  }

  lemma ValuesUsable(tiles: Tiles, g: Grid)
    requires g.Valid()
    ensures forall y, x, v :: Usable(tiles, g, y, x, v) ==> HasValid(tiles, g, v)
    ensures forall v :: HasValid(tiles, g, v) ==> exists y, x :: Usable(tiles, g, y, x, v)
  {
    hide ValidPixel, PixelSample, Usable;
    forall y, x, v | Usable(tiles, g, y, x, v) ensures HasValid(tiles, g, v) {
      UsableIffValid(tiles, g, y, x, v);
    }
    forall v | HasValid(tiles, g, v) ensures exists y, x :: Usable(tiles, g, y, x, v) {
      var y, x :| InImage(g, y, x) && ValidPixel(tiles, g, y, x) && PixelSample(tiles, g, y, x) == Num(v);
      UsableIffValid(tiles, g, y, x, v);
    }
  }

  lemma FinishedPixel(tiles: Tiles, g: Grid, min: real, y: nat, x: nat)
    requires g.Valid() && y < g.h && x < g.w
    ensures PixelOf(Finished(tiles, g, min, y, x).elev, Finished(tiles, g, min, y, x).mask, tiles, g, min, y, x)
  {
    if ValidPixel(tiles, g, y, x) { UsableIffValid(tiles, g, y, x, PixelSample(tiles, g, y, x).value); }
    forall v | Usable(tiles, g, y, x, v) ensures ValidPixel(tiles, g, y, x) { UsableIffValid(tiles, g, y, x, v); }
    assert ReadAt(tiles, g, y, x) == tiles.read(x / g.tw, y / g.th);
    if ReadAt(tiles, g, y, x).Failed? { assert !ValidPixel(tiles, g, y, x); }
    hide Usable, ValidPixel, PixelSample, ReadAt;
  }

  lemma FinishedPixels(elev: seq<Sample>, mask: seq<int>, min: real, tiles: Tiles, g: Grid)
    requires g.Valid() && CellsFinished(elev, mask, min, tiles, g)
    ensures PixelsOf(elev, mask, tiles, g, min)
  {
    hide Finished, PixelOf;
    forall y, x | 0 <= y < g.h && 0 <= x < g.w
      ensures && At(g.w, y, x) == y * g.w + x && 0 <= At(g.w, y, x) < |elev|
              && PixelOf(elev[At(g.w, y, x)], mask[At(g.w, y, x)], tiles, g, min, y, x)
    {
      assert InImage(g, y, x);
      FinishedPixel(tiles, g, min, y, x);
    }
  }

  lemma UsableExtremes(min: real, max: real, tiles: Tiles, g: Grid)
    requires g.Valid() && HasValid(tiles, g, min) && min < max
    requires forall v :: HasValid(tiles, g, v) ==> min <= v <= max
    requires HasValid(tiles, g, max) || (max == min + 1.0 && forall v :: HasValid(tiles, g, v) ==> v == min)
    ensures ExtremesOf(min, max, tiles, g)
  {
    hide HasValid, Usable;
    ValuesUsable(tiles, g);
  }

  /** `assembleElevationGrid`: it fails exactly when no sample is usable. */
  method AssembleElevationGrid(tiles: Tiles, g: Grid) returns (r: Grids)
    requires g.Valid()
    ensures r.NoValidSamples? <==> forall y, x, v :: !Usable(tiles, g, y, x, v)
    ensures r.Grids? ==> PixelsOf(r.elev[..], r.mask[..], tiles, g, r.min) && ExtremesOf(r.min, r.max, tiles, g)
  {
    hide Scan, HasValid, At, Finished, CellsFinished, CellsScanned, PixelsOf, ExtremesOf, Usable;
    ValuesUsable(tiles, g);
    var elev := new Sample[g.w * g.h](_ => Num(0.0));
    var mask := new int[g.w * g.h](_ => 0);
    var e;
    ghost var writes;
    e, writes := ScanTiles(elev, mask, tiles, g);
    ScanEnd(elev[..], mask[..], writes, e, tiles, g);
    if e.NoneYet? {
      return NoValidSamples;
    }
    var vMin, vMax := e.lo, e.hi;
    if vMax <= vMin {
      vMax := vMin + 1.0;
    }
    ghost var scanned := elev[..];
    FillNodata(elev, vMin);
    FilledCells(scanned, elev[..], mask[..], tiles, g, vMin);
    FinishedPixels(elev[..], mask[..], vMin, tiles, g);
    UsableExtremes(vMin, vMax, tiles, g);
    return Grids(elev, mask, vMin, vMax);
  }

  /** The final loop: nodata cells become the valid minimum. */
  method FillNodata(elev: array<Sample>, vMin: real)
    modifies elev
    ensures forall k :: 0 <= k < elev.Length ==> elev[k] == if old(elev[k]).NaN? then Num(vMin) else old(elev[k])
  {
    for i := 0 to elev.Length
      invariant forall k :: 0 <= k < elev.Length ==>
                              elev[k] == if k < i && old(elev[k]).NaN? then Num(vMin) else old(elev[k])
    {
      if elev[i].NaN? {
        elev[i] := Num(vMin);
      }
    }
  }

  /** At the end of the loops every pixel of the image has been passed. */
  lemma ScanEnd(elev: seq<Sample>, mask: seq<int>, writes: seq<nat>, e: Extremes, tiles: Tiles, g: Grid)
    requires g.Valid() && Scan(elev, mask, writes, e, tiles, g, CeilDiv(g.h, g.th), 0, 0, 0)
    ensures CellsScanned(elev, mask, tiles, g) && TrueExtremes(e, tiles, g)
  {
    hide At, ValidPixel, PixelSample, Scanned;
    var n := CeilDiv(g.h, g.th);
    forall y, x | InImage(g, y, x) ensures Visited(g, n, 0, 0, 0, y, x) {
      VisitedEnd(g, y, x);
    }
    hide Visited, Met, HasValid;
    forall y, x, v | Met(tiles, g, n, 0, 0, 0, y, x, v) ensures HasValid(tiles, g, v) {
      MetIsValid(tiles, g, n, y, x, v);
    }
    forall v | HasValid(tiles, g, v) ensures exists y, x :: Met(tiles, g, n, 0, 0, 0, y, x, v) {
      ValidIsMet(tiles, g, v);
    }
  }

  lemma MetIsValid(tiles: Tiles, g: Grid, n: nat, y: int, x: int, v: real)
    requires g.Valid() && Met(tiles, g, n, 0, 0, 0, y, x, v)
    ensures HasValid(tiles, g, v)
  {
    hide Visited, ValidPixel, PixelSample;
  }

  lemma ValidIsMet(tiles: Tiles, g: Grid, v: real)
    requires g.Valid() && HasValid(tiles, g, v)
    ensures exists y, x :: Met(tiles, g, CeilDiv(g.h, g.th), 0, 0, 0, y, x, v)
  {
    var y, x :| InImage(g, y, x) && ValidPixel(tiles, g, y, x) && PixelSample(tiles, g, y, x) == Num(v);
    VisitedEnd(g, y, x);
    hide Visited, ValidPixel, PixelSample;
    assert Met(tiles, g, CeilDiv(g.h, g.th), 0, 0, 0, y, x, v);
  }

  lemma FilledCells(scanned: seq<Sample>, elev: seq<Sample>, mask: seq<int>, tiles: Tiles, g: Grid, min: real)
    requires g.Valid() && |scanned| == |elev| && CellsScanned(scanned, mask, tiles, g)
    requires forall k :: 0 <= k < |elev| ==> elev[k] == if scanned[k].NaN? then Num(min) else scanned[k]
    ensures CellsFinished(elev, mask, min, tiles, g)
  {
    hide At, PixelSample;
    forall y, x | InImage(g, y, x)
      ensures 0 <= At(g.w, y, x) < |elev| &&
              Cell(elev[At(g.w, y, x)], mask[At(g.w, y, x)]) == Finished(tiles, g, min, y, x)
    {
      assert Cell(scanned[At(g.w, y, x)], mask[At(g.w, y, x)]) == Scanned(tiles, g, y, x);
    }
  }
}

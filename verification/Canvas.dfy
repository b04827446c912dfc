/** The dirty-block canvas of gui/canvas.c and gui/box.c. Every 64 x 32 block
    of the frame buffer queues the boxes that meet it and is repainted only when
    its queue length changed or a dirty box was queued. */
module Canvas {

  newtype pixel = x: int | 0 <= x < 0x10000

  // ----- Pictures -----------------------------------------------------------

  datatype Shape = Shape(left: int, top: int, width: int, height: int, color: pixel)

  predicate Covers(s: Shape, y: int, x: int) {
    s.top <= y < s.top + s.height && s.left <= x < s.left + s.width
  }

  /** A box of the canvas client. `dirty` stands for the two values 0 and DIRTY. */
  class Box {
    var dirty: bool
    var width: int
    var height: int
    var kx: int
    var ky: int
    var color: pixel

    constructor (width: int, height: int, kx: int, ky: int, color: pixel)
      ensures this.width == width && this.height == height && this.kx == kx && this.ky == ky
      ensures this.color == color && dirty
    {
      this.width, this.height, this.kx, this.ky, this.color := width, height, kx, ky, color;
      dirty := true;
    }
  }

  /** One drawing request of a frame: the box, what it looked like, and whether
      it was dirty. */
  datatype Drawn = Drawn(box: Box, shape: Shape, dirty: bool)

  /** The naive painter: the first request covering a pixel gives its colour. */
  ghost function TopColor(ds: seq<Drawn>, y: int, x: int): pixel {
    if ds == [] then 0
    else if Covers(ds[0].shape, y, x) then ds[0].shape.color
    else TopColor(ds[1..], y, x)
  }

  /** The colour is that of the first request covering the pixel, or 0. */
  lemma {:induction false} TopIsFirst(ds: seq<Drawn>, k: nat, y: int, x: int)
    requires k <= |ds| && forall l | 0 <= l < k :: !Covers(ds[l].shape, y, x)
    requires k < |ds| ==> Covers(ds[k].shape, y, x)
    ensures TopColor(ds, y, x) == if k < |ds| then ds[k].shape.color else 0
  {
    if k > 0 {
      assert forall l | 0 <= l < k - 1 :: ds[1..][l] == ds[l + 1];
      TopIsFirst(ds[1..], k - 1, y, x);
    }
  }

  lemma TopOf(d: Drawn, ds: seq<Drawn>)
    ensures forall y: int, x: int :: TopColor([d] + ds, y, x) == if Covers(d.shape, y, x) then d.shape.color else TopColor(ds, y, x)
  {
    assert ([d] + ds)[1..] == ds;
  }

  /** The shape covers some pixel of the width x height canvas that lies in block (i, j). */
  ghost predicate Meets(width: int, height: int, s: Shape, i: int, j: int) {
    exists y: int, x: int :: InBlock(i, j, y, x) && 0 <= y < height && 0 <= x < width && Covers(s, y, x)
  }

  predicate InBlock(i: int, j: int, y: int, x: int) {
    i * 32 <= y < i * 32 + 32 && j * 64 <= x < j * 64 + 64
  }

  /** The requests that meet a block, in order. */
  ghost function Local(width: int, height: int, ds: seq<Drawn>, i: int, j: int): seq<Drawn> {
    if ds == [] then []
    else (if Meets(width, height, ds[0].shape, i, j) then [ds[0]] else [])
         + Local(width, height, ds[1..], i, j)
  }

  lemma {:induction false} LocalAppend(width: int, height: int, ds: seq<Drawn>, d: Drawn, i: int, j: int)
    ensures Local(width, height, ds + [d], i, j)
      == Local(width, height, ds, i, j) + (if Meets(width, height, d.shape, i, j) then [d] else [])
  {
    hide Meets;
    if ds == [] {
      assert ds + [d] == [d];
    } else {
      assert (ds + [d])[1..] == ds[1..] + [d];
      LocalAppend(width, height, ds[1..], d, i, j);
      var head := if Meets(width, height, ds[0].shape, i, j) then [ds[0]] else [];
      var rest := Local(width, height, ds[1..], i, j);
      var last := if Meets(width, height, d.shape, i, j) then [d] else [];
      assert Local(width, height, ds + [d], i, j) == head + (rest + last);
      assert head + (rest + last) == (head + rest) + last;
    }
  }

  lemma {:induction false} LocalMember(width: int, height: int, ds: seq<Drawn>, i: int, j: int)
    ensures forall d :: d in Local(width, height, ds, i, j) ==> d in ds
  {
    if ds != [] {
      LocalMember(width, height, ds[1..], i, j);
    }
  }

  /** On the pixels of the canvas, a block's own queue paints what the whole scene paints. */
  lemma {:induction false} LocalPaintsAll(width: int, height: int, ds: seq<Drawn>, i: int, j: int, y: int, x: int)
    requires InBlock(i, j, y, x) && 0 <= y < height && 0 <= x < width
    ensures TopColor(Local(width, height, ds, i, j), y, x) == TopColor(ds, y, x)
  {
    if ds != [] {
      var rest := Local(width, height, ds[1..], i, j);
      LocalPaintsAll(width, height, ds[1..], i, j, y, x);
      assert Covers(ds[0].shape, y, x) ==> Meets(width, height, ds[0].shape, i, j);
      assert [] + rest == rest;
      if Meets(width, height, ds[0].shape, i, j) {
        assert ([ds[0]] + rest)[1..] == rest;
      }
    }
  }

  // ----- The frame discipline and the counting argument -----------------------

  /** The shapes of `cs` occur among those of `ds`, in the same order. */
  ghost predicate Subsequence(cs: seq<Drawn>, ds: seq<Drawn>) {
    cs == []
    || (ds != [] && cs[0].shape == ds[0].shape && Subsequence(cs[1..], ds[1..]))
    || (ds != [] && Subsequence(cs, ds[1..]))
  }

  /** The requests made with a clean box. */
  ghost function Clean(ds: seq<Drawn>): seq<Drawn> {
    if ds == [] then []
    else (if ds[0].dirty then [] else [ds[0]]) + Clean(ds[1..])
  }

  /** What the client owes the canvas from one frame to the next: boxes drawn
      clean were drawn last time, looking the same and in the same order. */
  ghost predicate Disciplined(scene: seq<Drawn>, shown: seq<Drawn>) {
    Subsequence(Clean(scene), shown)
  }

  lemma {:induction false} SubsequenceShorter(cs: seq<Drawn>, ds: seq<Drawn>)
    requires Subsequence(cs, ds)
    ensures |cs| <= |ds|
    decreases |ds|
  {
    if cs == [] {
    } else if cs[0].shape == ds[0].shape && Subsequence(cs[1..], ds[1..]) {
      SubsequenceShorter(cs[1..], ds[1..]);
    } else {
      SubsequenceShorter(cs, ds[1..]);
    }
  }

  /** The counting argument: a subsequence as long as the whole is the whole. */
  lemma {:induction false} SameLengthSamePicture(cs: seq<Drawn>, ds: seq<Drawn>, y: int, x: int)
    requires Subsequence(cs, ds) && |cs| == |ds|
    ensures TopColor(cs, y, x) == TopColor(ds, y, x)
    decreases |ds|
  {
    if cs == [] {
    } else if cs[0].shape == ds[0].shape && Subsequence(cs[1..], ds[1..]) {
      SameLengthSamePicture(cs[1..], ds[1..], y, x);
    } else {
      SubsequenceShorter(cs, ds[1..]);
    }
  }

  lemma {:induction false} SubsequenceLocal(width: int, height: int, cs: seq<Drawn>, ds: seq<Drawn>, i: int, j: int)
    requires Subsequence(cs, ds)
    ensures Subsequence(Local(width, height, cs, i, j), Local(width, height, ds, i, j))
    decreases |ds|
  {
    hide Meets;
    if cs == [] {
    } else if cs[0].shape == ds[0].shape && Subsequence(cs[1..], ds[1..]) {
      SubsequenceLocal(width, height, cs[1..], ds[1..], i, j);
      var lc, ld := Local(width, height, cs[1..], i, j), Local(width, height, ds[1..], i, j);
      assert [] + lc == lc && [] + ld == ld;
      assert Meets(width, height, cs[0].shape, i, j) == Meets(width, height, ds[0].shape, i, j);
      if Meets(width, height, cs[0].shape, i, j) {
        assert ([cs[0]] + lc)[1..] == lc && ([ds[0]] + ld)[1..] == ld;
      }
    } else {
      SubsequenceLocal(width, height, cs, ds[1..], i, j);
      var lc, ld := Local(width, height, cs, i, j), Local(width, height, ds[1..], i, j);
      assert ([ds[0]] + ld)[1..] == ld && [] + ld == ld;
    }
  }

  ghost predicate AllClean(ds: seq<Drawn>) {
    forall k :: 0 <= k < |ds| ==> !ds[k].dirty
  }

  lemma {:induction false} LocalOfClean(width: int, height: int, ds: seq<Drawn>, i: int, j: int)
    requires AllClean(Local(width, height, ds, i, j))
    ensures Local(width, height, Clean(ds), i, j) == Local(width, height, ds, i, j)
  {
    hide Meets;
    if ds != [] {
      var rest := Local(width, height, ds[1..], i, j);
      var all := Local(width, height, ds, i, j);
      assert [] + rest == rest && [] + Clean(ds[1..]) == Clean(ds[1..]);
      if Meets(width, height, ds[0].shape, i, j) {
        assert all[0] == ds[0] && all[1..] == rest;
        assert forall k :: 0 <= k < |rest| ==> rest[k] == all[k + 1];
      }
      LocalOfClean(width, height, ds[1..], i, j);
      if !ds[0].dirty {
        assert ([ds[0]] + Clean(ds[1..]))[1..] == Clean(ds[1..]);
      } else {
        assert !Meets(width, height, ds[0].shape, i, j);
      }
    }
  }

  /** Why a block may be passed over: under the discipline a queue that is clean
      is a subsequence of what was queued there before, so if it is as long, it
      paints the picture that is already there. */
  lemma SkippedBlockIsCurrent(width: int, height: int, scene: seq<Drawn>, shown: seq<Drawn>, i: int, j: int)
    requires Disciplined(scene, shown)
    requires AllClean(Local(width, height, scene, i, j))
    ensures Subsequence(Local(width, height, scene, i, j), Local(width, height, shown, i, j))
    ensures |Local(width, height, scene, i, j)| == |Local(width, height, shown, i, j)| ==>
      forall y: int, x: int :: TopColor(Local(width, height, scene, i, j), y, x) == TopColor(Local(width, height, shown, i, j), y, x)
  {
    LocalOfClean(width, height, scene, i, j);
    SubsequenceLocal(width, height, Clean(scene), shown, i, j);
    if |Local(width, height, scene, i, j)| == |Local(width, height, shown, i, j)| {
      forall y: int, x: int
        ensures TopColor(Local(width, height, scene, i, j), y, x) == TopColor(Local(width, height, shown, i, j), y, x)
      {
        SameLengthSamePicture(Local(width, height, scene, i, j), Local(width, height, shown, i, j), y, x);
      }
    }
  }

  /** The discipline in terms of objects: if every clean box of the frame can be
      pointed to in the previous frame, unchanged, and the positions pointed to
      ascend, the frame is disciplined. */
  lemma {:induction false} AscendingPositions(cs: seq<Drawn>, ds: seq<Drawn>, pos: seq<nat>, from: nat)
    requires |pos| == |cs| && from <= |ds|
    requires forall k :: 0 <= k < |cs| ==> from <= pos[k] < |ds| && ds[pos[k]].shape == cs[k].shape
    requires forall k, l :: 0 <= k < l < |cs| ==> pos[k] < pos[l]
    ensures Subsequence(cs, ds[from..])
    decreases |ds| - from
  {
    if cs != [] {
      assert from <= pos[0] < |ds|;
      assert ds[from..][1..] == ds[from + 1..];
      if pos[0] == from {
        AscendingPositions(cs[1..], ds, pos[1..], from + 1);
        assert ds[from..][0] == ds[from];
      } else {
        assert forall k :: 0 < k < |cs| ==> pos[0] < pos[k];
        AscendingPositions(cs, ds, pos, from + 1);
      }
    }
  }

  ghost predicate DrawnBefore(c: Drawn, ds: seq<Drawn>) {
    exists p :: 0 <= p < |ds| && ds[p].box == c.box && ds[p].shape == c.shape
  }

  /** Each clean box of the frame was drawn in the previous one with the same
      shape, and any two of them were drawn in the same relative order. */
  ghost predicate KeptBoxes(cs: seq<Drawn>, ds: seq<Drawn>) {
    && (forall k | 0 <= k < |cs| :: DrawnBefore(cs[k], ds))
    && (forall k, l, p, q | 0 <= k < l < |cs| && 0 <= p < |ds| && 0 <= q < |ds| ::
          ds[p].box == cs[k].box && ds[q].box == cs[l].box ==> p < q)
  }

  lemma KeptBoxesDisciplined(scene: seq<Drawn>, shown: seq<Drawn>)
    requires KeptBoxes(Clean(scene), shown)
    ensures Disciplined(scene, shown)
  {
    var cs := Clean(scene);
    var pos: seq<nat> := PositionsOf(cs, shown, |cs|);
    AscendingPositions(cs, shown, pos, 0);
    assert shown[0..] == shown;
  }

  lemma {:induction false} PositionsOf(cs: seq<Drawn>, ds: seq<Drawn>, n: nat) returns (pos: seq<nat>)
    requires KeptBoxes(cs, ds) && n <= |cs|
    ensures |pos| == n
    ensures forall k :: 0 <= k < n ==> 0 <= pos[k] < |ds| && ds[pos[k]].box == cs[k].box && ds[pos[k]].shape == cs[k].shape
    ensures forall k, l :: 0 <= k < l < n ==> pos[k] < pos[l]
  {
    if n == 0 {
      pos := [];
    } else {
      pos := PositionsOf(cs, ds, n - 1);
      assert DrawnBefore(cs[n - 1], ds);
      var p :| 0 <= p < |ds| && ds[p].box == cs[n - 1].box && ds[p].shape == cs[n - 1].shape;
      pos := pos + [p];
    }
  }

  // ----- Pixels in the frame buffer -------------------------------------------

  /** Index of row `y`, column `x` in a table with rows of length `pitch`. */
  function At(pitch: nat, y: int, x: int): int {
    y * pitch + x
  }

  /** Columns [left, left + w) of row `row` are one stretch of the table, and
      nothing else lies in that stretch. */
  lemma RowStretch(pitch: nat, row: int, left: int, w: int, y: int, x: int)
    requires 0 <= x < pitch && 0 <= left && left + w <= pitch
    ensures At(pitch, row, left) <= At(pitch, y, x) < At(pitch, row, left) + w <==> y == row && left <= x < left + w
  {
    if y < row {
      MulMonotone(y + 1, row, pitch);
      assert (y + 1) * pitch == y * pitch + pitch;
    } else if y > row {
      MulMonotone(row + 1, y, pitch);
      assert (row + 1) * pitch == row * pitch + pitch;
    }
  }

  lemma MulMonotone(a: int, b: int, p: nat)
    requires a <= b
    ensures a * p <= b * p
  {}

  lemma InTable(pitch: nat, rows: int, y: int, x: int)
    requires 0 <= x < pitch && 0 <= y < rows
    ensures 0 <= At(pitch, y, x) < rows * pitch
  {
    MulMonotone(y + 1, rows, pitch);
    MulMonotone(0, y, pitch);
    assert (y + 1) * pitch == y * pitch + pitch;
  }

  /** The colour at row `y`, column `x` of the buffer contents `s`. */
  function Pixel(s: seq<pixel>, pitch: nat, y: int, x: int): pixel {
    if 0 <= At(pitch, y, x) < |s| then s[At(pitch, y, x)] else 0
  }

  /** The innermost loop of draw_box, and memset in drawfunc_clear. */
  method FillRow(buf: array<pixel>, from: int, w: int, color: pixel)
    requires w > 0 ==> 0 <= from && from + w <= buf.Length
    modifies buf
    ensures forall k :: 0 <= k < buf.Length ==> buf[k] == if from <= k < from + w then color else old(buf[k])
  {
    var j := 0;
    while j < w
      invariant 0 <= j && (j == 0 || j <= w)
      invariant forall k :: 0 <= k < buf.Length ==> buf[k] == if from <= k < from + j then color else old(buf[k])
    {
      buf[from + j] := color;
      j := j + 1;
    }
  }

  /** The row loop of draw_box and of drawfunc_clear: fills rows [top, top + h)
      at columns [left, left + w), the pointer `base` advancing by one pitch. */
  method FillRows(buf: array<pixel>, base: int, pitch: nat, h: int, w: int, color: pixel,
                  ghost rows: nat, ghost top: int, ghost left: int)
    requires rows * pitch <= buf.Length && base == At(pitch, top, left)
    requires h > 0 && w > 0 ==> 0 <= top && top + h <= rows && 0 <= left && left + w <= pitch
    modifies buf
    ensures forall y: int, x: int | 0 <= y < rows && 0 <= x < pitch ::
      Pixel(buf[..], pitch, y, x) ==
        if top <= y < top + h && left <= x < left + w then color else Pixel(old(buf[..]), pitch, y, x)
  {
    var i, row := 0, base;
    while i < h
      invariant 0 <= i && (i == 0 || i <= h) && row == At(pitch, top + i, left)
      invariant forall y: int, x: int | 0 <= y < rows && 0 <= x < pitch ::
        Pixel(buf[..], pitch, y, x) ==
          if top <= y < top + i && left <= x < left + w then color else Pixel(old(buf[..]), pitch, y, x)
    {
      ghost var before := buf[..];
      if w > 0 {
        StretchInTable(pitch, rows, top + i, left, w);
      }
      FillRow(buf, row, w, color);
      forall y: int, x: int | 0 <= y < rows && 0 <= x < pitch
        ensures Pixel(buf[..], pitch, y, x) ==
          if top <= y < top + (i + 1) && left <= x < left + w then color else Pixel(old(buf[..]), pitch, y, x)
      {
        InTable(pitch, rows, y, x);
        if w > 0 {
          RowStretch(pitch, top + i, left, w, y, x);
        }
        assert Pixel(before, pitch, y, x) == before[At(pitch, y, x)];
      }
      row := row + pitch;
      assert (top + i + 1) * pitch == (top + i) * pitch + pitch;
      i := i + 1;
    }
  }

  lemma StretchInTable(pitch: nat, rows: nat, row: int, left: int, w: int)
    requires 0 <= row < rows && 0 <= left && w > 0 && left + w <= pitch
    ensures 0 <= At(pitch, row, left) && At(pitch, row, left) + w <= rows * pitch
  {
    InTable(pitch, rows, row, left);
    InTable(pitch, rows, row, left + w - 1);
  }

  /** draw_box: one box at block-local position (x, y), clipped to the block
      whose first pixel is `ptr`. */
  method DrawLocal(buf: array<pixel>, ptr: int, pitch: nat, obj: Box, x0: int, y0: int,
                 ghost rows: nat, ghost i: int, ghost j: int)
    requires rows * pitch <= buf.Length && ptr == At(pitch, i * 32, j * 64)
    requires 0 <= i && i * 32 + 32 <= rows && 0 <= j && j * 64 + 64 <= pitch
    modifies buf
    ensures var s := Shape(x0 + j * 64, y0 + i * 32, obj.width, obj.height, obj.color);
      forall y: int, x: int | 0 <= y < rows && 0 <= x < pitch ::
        Pixel(buf[..], pitch, y, x) ==
        if InBlock(i, j, y, x) && Covers(s, y, x) then s.color else Pixel(old(buf[..]), pitch, y, x)
  {
    var x, y := x0, y0;
    var w, h := obj.width, obj.height;
    var buffer := ptr;
    if y < 0 {
      h := h + y;
      y := 0;
    } else {
      buffer := buffer + y * pitch;
    }
    if x < 0 {
      w := w + x;
      x := 0;
    } else {
      buffer := buffer + x;
    }
    if w + x > 64 {
      w := 64 - x;
    }
    if h + y > 32 {
      h := 32 - y;
    }
    assert (i * 32 + y) * pitch == i * 32 * pitch + y * pitch;
    FillRows(buf, buffer, pitch, h, w, obj.color, rows, i * 32 + y, j * 64 + x);
  }

  /** drawfunc_clear. */
  method Clear(buf: array<pixel>, ptr: int, pitch: nat, ghost rows: nat, ghost i: int, ghost j: int)
    requires rows * pitch <= buf.Length && ptr == At(pitch, i * 32, j * 64)
    requires 0 <= i && i * 32 + 32 <= rows && 0 <= j && j * 64 + 64 <= pitch
    modifies buf
    ensures forall y: int, x: int | 0 <= y < rows && 0 <= x < pitch ::
      Pixel(buf[..], pitch, y, x) ==
        if InBlock(i, j, y, x) then 0 else Pixel(old(buf[..]), pitch, y, x)
  {
    FillRows(buf, ptr, pitch, 32, 64, 0, rows, i * 32, j * 64);
  }

  // ----- The canvas --------------------------------------------------------------

  /** What the display's callback gets to see: its block, and the buffer. */
  datatype Flipping = Flipping(x: int, y: int, pixels: seq<pixel>)

  /** A queued call: nothing yet, the display's flip function, or draw_box. */
  datatype Node = Unset | Flip(x: int, y: int) | Call(box: Box, x: int, y: int)

  /** struct canvas_block; the capability is the length of the pipeline. */
  datatype Block = Block(ptr: int, pipeline: seq<Node>, totalObject: int, totalLast: int)

  function Resized(b: Block): Block {
    b.(pipeline := b.pipeline + seq(32, _ => Unset))
  }

  function Junk(): Block {
    Block(0, [], 0, 0)
  }

  class Canvas {
    const width: nat
    const height: nat
    const pitch: nat
    const blockW: nat
    const blockH: nat
    const block: array<Block>
    const buf: array<pixel>
    // Requests of the frame being drawn, and for each block the requests it was
    // last painted with, looking as they did then.
    ghost var scene: seq<Drawn>
    ghost var shown: (int, int) -> seq<Drawn>
    // The calls of the display's callback, each with the buffer it found.
    ghost var flips: seq<Flipping>

    /** The buffer has room for whole blocks. */
    predicate Dimensions() {
      && width >= 1 && height >= 1
      && blockW == (width + 63) / 64 && blockH == (height + 31) / 32
      && blockW * 64 <= pitch
      && blockH * 32 * pitch <= buf.Length
      && block.Length == blockW * blockH
    }

    ghost predicate OnCanvas(i: int, j: int) {
      0 <= i < blockH && 0 <= j < blockW
    }

    ghost function LocalTo(ds: seq<Drawn>, i: int, j: int): seq<Drawn> {
      Local(width, height, ds, i, j)
    }

    /** The block's pixels are those that the queue `ds` paints. */
    ghost predicate Shows(s: seq<pixel>, ds: seq<Drawn>, i: int, j: int) {
      forall y: int, x: int | InBlock(i, j, y, x) ::
        Pixel(s, pitch, y, x) == TopColor(ds, y, x)
    }

    /** The block in row `i`, column `j` of the table. */
    ghost function BlockAt(s: seq<Block>, i: int, j: int): Block {
      if 0 <= At(blockW, i, j) < |s| then s[At(blockW, i, j)] else Junk()
    }

    ghost predicate Queued(b: Block, ds: seq<Drawn>, i: int, j: int) {
      && b.ptr == At(pitch, i * 32, j * 64)
      && 1 <= |b.pipeline| && b.pipeline[0] == Flip(j * 64, i * 32)
      && b.totalObject == 1 + |ds| <= |b.pipeline|
      && forall n | 0 <= n < |ds| ::
           b.pipeline[1 + n] == Call(ds[n].box, ds[n].shape.left - j * 64, ds[n].shape.top - i * 32)
    }

    /** A positive total_last is a promise: nothing dirty is queued, and the
        block shows the queue on record, which had this length. */
    ghost predicate Current(b: Block, s: seq<pixel>, i: int, j: int)
      reads this`scene, this`shown
    {
      CurrentTo(b, s, LocalTo(scene, i, j), shown(i, j), i, j)
    }

    ghost predicate CurrentTo(b: Block, s: seq<pixel>, ds: seq<Drawn>, record: seq<Drawn>, i: int, j: int) {
      b.totalLast <= 0 || (AllClean(ds) && b.totalLast == 1 + |record| && Shows(s, record, i, j))
    }

    ghost predicate BlockOk(i: int, j: int)
      reads this, block, buf
    {
      var b := BlockAt(block[..], i, j);
      Queued(b, LocalTo(scene, i, j), i, j) && Current(b, buf[..], i, j)
    }

    /** The block is due for painting whatever is queued. */
    ghost predicate Stale(i: int, j: int)
      reads this, block
    {
      BlockAt(block[..], i, j).totalLast <= 0
    }

    /** The test of canvas_update (line 182) passes the block over. */
    ghost predicate Skips(i: int, j: int)
      reads this, block
    {
      BlockAt(block[..], i, j).totalObject == BlockAt(block[..], i, j).totalLast
    }

    ghost predicate Valid()
      reads this, block, buf
    {
      Dimensions() && forall i: int, j: int | OnCanvas(i, j) :: BlockOk(i, j)
    }

    constructor (w: nat, h: nat, buffer: array<pixel>, pitch: nat)
      requires w >= 1 && h >= 1 && (w + 63) / 64 * 64 <= pitch && (h + 31) / 32 * 32 * pitch <= buffer.Length
      ensures Valid() && AllStale() && width == w && height == h && buf == buffer && this.pitch == pitch
      ensures scene == [] && flips == [] && fresh(block)
    {
      width, height, this.pitch, buf := w, h, pitch, buffer;
      var nw, nh := (w + 63) / 64, (h + 31) / 32;
      MulMonotone(0, nh, nw);
      blockW, blockH := nw, nh;
      block := new Block[nw * nh](_ => Junk());
      scene, shown, flips := [], (i, j) => [], [];
      new;
      Init();
    }

    /** A block as canvas_init leaves it. */
    predicate FreshBlock(b: Block, i: int, j: int) {
      && b.ptr == At(pitch, i * 32, j * 64) && b.totalObject == 1 && b.totalLast == 0
      && |b.pipeline| == 32 && b.pipeline[0] == Flip(j * 64, i * 32)
    }

    /** Lines 59-68 of canvas_init. */
    method InitBlock(k: int, line: int, ghost i: int, j: int, y: int)
      requires Dimensions() && OnCanvas(i, j) && k == At(blockW, i, j)
      requires line == At(pitch, i * 32, 0) && y == i * 32
      modifies block
      ensures FreshBlock(BlockAt(block[..], i, j), i, j)
      ensures forall bi: int, bj: int | OnCanvas(bi, bj) && (bi != i || bj != j) ::
        BlockAt(block[..], bi, bj) == BlockAt(old(block[..]), bi, bj)
    {
      InTable(blockW, blockH, i, j);
      var b := Resized(Block(line + j * 64, [], 1, 0));
      block[k] := b.(pipeline := b.pipeline[0 := Flip(j * 64, y)]);
      forall bi: int, bj: int | OnCanvas(bi, bj) && (bi != i || bj != j)
        ensures BlockAt(block[..], bi, bj) == BlockAt(old(block[..]), bi, bj)
      {
        RowStretch(blockW, i, j, 1, bi, bj);
        InTable(blockW, blockH, bi, bj);
      }
    }

    lemma FreshOk()
      requires Dimensions() && scene == []
      requires forall i: int, j: int | OnCanvas(i, j) :: FreshBlock(BlockAt(block[..], i, j), i, j)
      ensures Valid() && AllStale()
    {
      hide At;
      forall i: int, j: int | OnCanvas(i, j)
        ensures BlockOk(i, j) && Stale(i, j)
      {
        assert FreshBlock(BlockAt(block[..], i, j), i, j);
      }
    }

    /** canvas_init. */
    method Init()
      requires Dimensions() && scene == []
      modifies block
      ensures Valid() && AllStale()
    {
      hide FreshBlock;
      var i, k, line := 0, 0, 0;
      while i < blockH
        invariant 0 <= i <= blockH && k == At(blockW, i, 0) && line == At(pitch, i * 32, 0)
        invariant forall bi: int, bj: int | OnCanvas(bi, bj) && bi < i :: FreshBlock(BlockAt(block[..], bi, bj), bi, bj)
      {
        var j := 0;
        while j < blockW
          invariant 0 <= j <= blockW && k == At(blockW, i, j) && line == At(pitch, i * 32, 0)
          invariant forall bi: int, bj: int | OnCanvas(bi, bj) && (bi < i || (bi == i && bj < j)) ::
            FreshBlock(BlockAt(block[..], bi, bj), bi, bj)
        {
          InitBlock(k, line, i, j, i * 32);
          k, j := k + 1, j + 1;
        }
        line := line + 32 * pitch;
        NextLine(i);
        i := i + 1;
      }
      FreshOk();
    }

    lemma NextLine(i: int)
      ensures At(pitch, (i + 1) * 32, 0) == At(pitch, i * 32, 0) + 32 * pitch
      ensures At(blockW, i + 1, 0) == At(blockW, i, blockW)
    {
      assert (i + 1) * 32 * pitch == i * 32 * pitch + 32 * pitch;
      assert (i + 1) * blockW == i * blockW + blockW;
    }

    /** Block (i, j) lies between the clipped corners of a box. */
    predicate Between(left: int, top: int, right: int, bottom: int, i: int, j: int) {
      top / 32 <= i <= bottom / 32 && left / 64 <= j <= right / 64
    }

    /** Clipping and dividing finds exactly the blocks that a box meets. */
    lemma BlocksMet(s: Shape, left: int, top: int, right: int, bottom: int, i: int, j: int)
      requires s.width > 0 && s.height > 0 && OnCanvas(i, j)
      requires left == (if s.left < 0 then 0 else s.left) && top == (if s.top < 0 then 0 else s.top)
      requires right == (if s.left + s.width - 1 > width - 1 then width - 1 else s.left + s.width - 1)
      requires bottom == (if s.top + s.height - 1 > height - 1 then height - 1 else s.top + s.height - 1)
      ensures left >= width || top >= height || right < 0 || bottom < 0 ==> !Meets(width, height, s, i, j)
      ensures !(left >= width || top >= height || right < 0 || bottom < 0) ==>
        (Meets(width, height, s, i, j) <==> Between(left, top, right, bottom, i, j))
    {
      if !(left >= width || top >= height || right < 0 || bottom < 0) && Between(left, top, right, bottom, i, j) {
        var y := if top < i * 32 then i * 32 else top;
        var x := if left < j * 64 then j * 64 else left;
        assert InBlock(i, j, y, x) && Covers(s, y, x) && 0 <= y < height && 0 <= x < width;
      }
    }

    /** Lines 118-147 of canvas_draw: clip a box to the canvas. */
    method Clip(s: Shape) returns (visible: bool, left: int, top: int, right: int, bottom: int)
      requires Dimensions() && s.width > 0 && s.height > 0
      ensures visible ==> 0 <= left <= right < width && 0 <= top <= bottom < height
      ensures forall i: int, j: int | OnCanvas(i, j) ::
        Meets(width, height, s, i, j) <==> visible && Between(left, top, right, bottom, i, j)
    {
      visible := false;
      left, top := s.left, s.top;
      right := left + s.width - 1;
      bottom := top + s.height - 1;
      forall i: int, j: int | OnCanvas(i, j)
        ensures var l, t := if left < 0 then 0 else left, if top < 0 then 0 else top;
          var r, b := if right > width - 1 then width - 1 else right, if bottom > height - 1 then height - 1 else bottom;
          Meets(width, height, s, i, j) <==> !(l >= width || t >= height || r < 0 || b < 0) && Between(l, t, r, b, i, j)
      {
        BlocksMet(s, if left < 0 then 0 else left, if top < 0 then 0 else top,
                  if right > width - 1 then width - 1 else right, if bottom > height - 1 then height - 1 else bottom, i, j);
      }
      if left < 0 {
        left := 0;
      } else if left >= width {
        return;
      }
      if top < 0 {
        top := 0;
      } else if top >= height {
        return;
      }
      if right > width - 1 {
        right := width - 1;
      } else if right < 0 {
        return;
      }
      if bottom > height - 1 {
        bottom := height - 1;
      } else if bottom < 0 {
        return;
      }
      visible := true;
    }

    /** One queue with a request appended (lines 161-169). */
    function Pushed(b: Block, node: Node, dirty: bool): Block
      requires 1 <= b.totalObject <= |b.pipeline|
    {
      var r := if b.totalObject == |b.pipeline| then Resized(b) else b;
      r.(pipeline := r.pipeline[r.totalObject := node],
         totalObject := r.totalObject + 1,
         totalLast := if dirty then -1 else r.totalLast)
    }

    /** The loops over the blocks that a clipped box meets (lines 150-173). */
    method Enqueue(b: Box, x: int, y: int, dirty: bool, left: int, top: int, right: int, bottom: int)
      requires Dimensions() && 0 <= left <= right < width && 0 <= top <= bottom < height
      requires forall bi: int, bj: int | OnCanvas(bi, bj) ::
        1 <= BlockAt(block[..], bi, bj).totalObject <= |BlockAt(block[..], bi, bj).pipeline|
      modifies block
      ensures forall bi: int, bj: int | OnCanvas(bi, bj) ::
        BlockAt(block[..], bi, bj) ==
          if Between(left, top, right, bottom, bi, bj)
          then Pushed(BlockAt(old(block[..]), bi, bj), Call(b, x - bj * 64, y - bi * 32), dirty)
          else BlockAt(old(block[..]), bi, bj)
    {
      var w, h := right / 64, bottom / 32;
      var fromX, fromY := left / 64, top / 32;
      var row := fromY * blockW;
      ghost var was := block[..];
      var i := fromY;
      while i <= h
        invariant fromY <= i <= h + 1 && row == At(blockW, i, 0)
        invariant forall bi: int, bj: int | OnCanvas(bi, bj) ::
          BlockAt(block[..], bi, bj) ==
            if Between(left, top, right, bottom, bi, bj) && bi < i
            then Pushed(BlockAt(was, bi, bj), Call(b, x - bj * 64, y - bi * 32), dirty)
            else BlockAt(was, bi, bj)
      {
        var j := fromX;
        while j <= w
          invariant fromX <= j <= w + 1
          invariant forall bi: int, bj: int | OnCanvas(bi, bj) ::
            BlockAt(block[..], bi, bj) ==
              if Between(left, top, right, bottom, bi, bj) && (bi < i || (bi == i && bj < j))
              then Pushed(BlockAt(was, bi, bj), Call(b, x - bj * 64, y - bi * 32), dirty)
              else BlockAt(was, bi, bj)
        {
          assert OnCanvas(i, j) && Between(left, top, right, bottom, i, j);
          InTable(blockW, blockH, i, j);
          assert block[row + j] == BlockAt(block[..], i, j);
          block[row + j] := Pushed(block[row + j], Call(b, x - j * 64, y - i * 32), dirty);
          forall bi: int, bj: int | OnCanvas(bi, bj)
            ensures BlockAt(block[..], bi, bj) ==
              if Between(left, top, right, bottom, bi, bj) && (bi < i || (bi == i && bj < j + 1))
              then Pushed(BlockAt(was, bi, bj), Call(b, x - bj * 64, y - bi * 32), dirty)
              else BlockAt(was, bi, bj)
          {
            RowStretch(blockW, i, j, 1, bi, bj);
            InTable(blockW, blockH, bi, bj);
          }
          j := j + 1;
        }
        row := row + blockW;
        assert (i + 1) * blockW == i * blockW + blockW;
        i := i + 1;
      }
    }

    /** Appending keeps the queue in step with the scene, and keeps the promise
        behind a positive total_last. */
    lemma PushedOk(was: Block, now: Block, s: seq<pixel>, before: seq<Drawn>, d: Drawn, i: int, j: int)
      requires Queued(was, LocalTo(before, i, j), i, j) && scene == before + [d]
      requires CurrentTo(was, s, LocalTo(before, i, j), shown(i, j), i, j)
      requires now == if Meets(width, height, d.shape, i, j)
        then Pushed(was, Call(d.box, d.shape.left - j * 64, d.shape.top - i * 32), d.dirty) else was
      ensures Queued(now, LocalTo(scene, i, j), i, j) && Current(now, s, i, j)
    {
      hide Meets, Shows;
      LocalAppend(width, height, before, d, i, j);
    }

    /** canvas_draw for a box. A box without area is ignored; any other request
        joins the scene and takes the box's dirty mark away. */
    method DrawBox(b: Box, x0: int, y0: int)
      requires Valid()
      modifies this`scene, block, b`dirty
      ensures Valid() && buf[..] == old(buf[..])
      ensures if b.width <= 0 || b.height <= 0 then
          scene == old(scene) && b.dirty == old(b.dirty)
        else
          && scene == old(scene) + [Drawn(b, Shape(x0 - b.kx, y0 - b.ky, b.width, b.height, b.color), old(b.dirty))]
          && !b.dirty
      ensures forall i: int, j: int | OnCanvas(i, j) ::
        Stale(i, j) <==> old(Stale(i, j)) || (|scene| > |old(scene)| && old(b.dirty) && Meets(width, height, scene[|scene| - 1].shape, i, j))
    {
      hide Meets, CurrentTo, Local;
      var dirty := b.dirty;
      if b.width <= 0 || b.height <= 0 { return; }
      b.dirty := false;
      var x, y := x0 - b.kx, y0 - b.ky;
      ghost var d := Drawn(b, Shape(x, y, b.width, b.height, b.color), dirty);
      ghost var was, before := block[..], scene;
      scene := scene + [d];
      var visible, left, top, right, bottom := Clip(Shape(x, y, b.width, b.height, b.color));
      if visible {
        Enqueue(b, x, y, dirty, left, top, right, bottom);
      }
      forall i: int, j: int | OnCanvas(i, j)
        ensures BlockOk(i, j)
      {
        assert old(BlockOk(i, j));
        PushedOk(BlockAt(was, i, j), BlockAt(block[..], i, j), buf[..], before, d, i, j);
      }
    }

    // ----- Showing a frame ------------------------------------------------------------

    /** The boxes queued for this frame still look the way they were drawn. */
    ghost predicate SceneUnchanged()
      reads this, set d | d in scene :: d.box
    {
      forall d | d in scene ::
        d.box.width == d.shape.width && d.box.height == d.shape.height && d.box.color == d.shape.color
    }

    /** A request as its box looks now. */
    ghost function Look(d: Drawn): Drawn
      reads d.box
    {
      d.(shape := Shape(d.shape.left, d.shape.top, d.box.width, d.box.height, d.box.color))
    }

    ghost function Looks(ds: seq<Drawn>): (r: seq<Drawn>)
      reads set d | d in ds :: d.box
      ensures |r| == |ds| && forall k | 0 <= k < |ds| :: r[k] == Look(ds[k])
    {
      if ds == [] then [] else [Look(ds[0])] + Looks(ds[1..])
    }

    /** `ls` is the frame being drawn, as it looks now. */
    ghost predicate LooksNow(ls: seq<Drawn>)
      reads this, set d | d in scene :: d.box
    {
      |ls| == |scene| && forall k | 0 <= k < |scene| :: ls[k] == Look(scene[k])
    }

    /** What a block's queue paints when the update comes: the requests that met
        the block when they were made, with the size and colour their boxes have now. */
    ghost function Queue(i: int, j: int): seq<Drawn>
      reads this, set d | d in scene :: d.box
    {
      Sift(scene, Looks(scene), i, j)
    }

    /** The elements of `ls` whose counterparts in `ds` meet the block. */
    ghost function Sift(ds: seq<Drawn>, ls: seq<Drawn>, i: int, j: int): seq<Drawn>
      requires |ds| == |ls|
    {
      if ds == [] then []
      else (if Meets(width, height, ds[0].shape, i, j) then [ls[0]] else []) + Sift(ds[1..], ls[1..], i, j)
    }

    lemma {:induction false} SiftLooks(ds: seq<Drawn>, ls: seq<Drawn>, i: int, j: int)
      requires |ds| == |ls| && forall k | 0 <= k < |ds| :: ls[k] == Look(ds[k])
      ensures |Sift(ds, ls, i, j)| == |LocalTo(ds, i, j)|
      ensures forall k | 0 <= k < |LocalTo(ds, i, j)| :: Sift(ds, ls, i, j)[k] == Look(LocalTo(ds, i, j)[k])
    {
      hide Meets;
      if ds != [] {
        assert forall k | 0 <= k < |ds| - 1 :: ls[1..][k] == ls[k + 1] && ds[1..][k] == ds[k + 1];
        SiftLooks(ds[1..], ls[1..], i, j);
        var rest := LocalTo(ds[1..], i, j);
        assert LocalTo(ds, i, j) == (if Meets(width, height, ds[0].shape, i, j) then [ds[0]] else []) + rest;
      }
    }

    lemma QueueLooks(i: int, j: int)
      ensures |Queue(i, j)| == |LocalTo(scene, i, j)|
      ensures forall k | 0 <= k < |Queue(i, j)| :: Queue(i, j)[k] == Look(LocalTo(scene, i, j)[k])
      ensures SceneUnchanged() ==> Queue(i, j) == LocalTo(scene, i, j)
    {
      SiftLooks(scene, Looks(scene), i, j);
      LocalMember(width, height, scene, i, j);
      hide Local, Sift, Looks;
    }

    /** Lines 183-188 of canvas_update: clear one block and run its queue from
        the last call to the first. */
    method Repaint(b: Block, ghost ls: seq<Drawn>, ghost i: int, ghost j: int)
      requires Dimensions() && OnCanvas(i, j) && Queued(b, LocalTo(scene, i, j), i, j) && LooksNow(ls)
      modifies buf, this`flips
      ensures flips == old(flips) + [Flipping(j * 64, i * 32, buf[..])]
      ensures Shows(buf[..], Sift(scene, ls, i, j), i, j)
      ensures forall y: int, x: int | 0 <= y < blockH * 32 && 0 <= x < pitch && !InBlock(i, j, y, x) ::
        Pixel(buf[..], pitch, y, x) == Pixel(old(buf[..]), pitch, y, x)
    {
      SiftLooks(scene, ls, i, j);
      hide Meets, Local, Sift, LooksNow, PaintedOver, Pixel, TopColor, Shows;
      ghost var queue := Sift(scene, ls, i, j);
      ClearBlock(b, i, j);
      var n := b.totalObject - 1;
      assert queue[n..] == [];
      while n >= 0
        invariant -1 <= n < b.totalObject
        invariant PaintedOver(buf[..], old(buf[..]), queue[if n < 0 then 0 else n..], i, j)
        invariant flips == old(flips) + if n < 0 then [Flipping(j * 64, i * 32, buf[..])] else []
      {
        RunQueued(b, n, queue, old(buf[..]), i, j);
        n := n - 1;
      }
      assert queue[0..] == queue;
      PaintedShows(buf[..], old(buf[..]), queue, i, j);
    }

    /** Line 184. */
    method ClearBlock(b: Block, ghost i: int, ghost j: int)
      requires Dimensions() && OnCanvas(i, j) && b.ptr == At(pitch, i * 32, j * 64)
      modifies buf
      ensures PaintedOver(buf[..], old(buf[..]), [], i, j)
    {
      hide Pixel;
      BlockFits(i, j);
      Clear(buf, b.ptr, pitch, blockH * 32, i, j);
    }

    /** The body of the loop in lines 185-188, the queue being painted behind `n`. */
    method RunQueued(b: Block, n: nat, ghost queue: seq<Drawn>, ghost before: seq<pixel>, ghost i: int, ghost j: int)
      requires Dimensions() && OnCanvas(i, j) && Queued(b, LocalTo(scene, i, j), i, j)
      requires n <= |queue| == |LocalTo(scene, i, j)| && (n > 0 ==> queue[n - 1] == Look(LocalTo(scene, i, j)[n - 1]))
      requires PaintedOver(buf[..], before, queue[n..], i, j)
      modifies buf, this`flips
      ensures flips == old(flips) + if n == 0 then [Flipping(j * 64, i * 32, buf[..])] else []
      ensures PaintedOver(buf[..], before, queue[if n == 0 then 0 else n - 1..], i, j)
    {
      hide Meets, Local, Pixel, TopColor, PaintedOver;
      ghost var s := buf[..];
      RunNode(b, n, queue, i, j);
      if n > 0 {
        assert queue[n - 1..] == [queue[n - 1]] + queue[n..];
        PaintOne(before, s, buf[..], queue[n - 1], queue[n..], i, j);
      } else {
        PaintNothing(before, s, buf[..], queue[0..], i, j);
      }
    }

    /** Within the table, the buffer `s` is `before` with the block painted by a queue. */
    ghost predicate PaintedOver(s: seq<pixel>, before: seq<pixel>, ds: seq<Drawn>, i: int, j: int) {
      forall y: int, x: int | 0 <= y < blockH * 32 && 0 <= x < pitch ::
        Pixel(s, pitch, y, x) == if InBlock(i, j, y, x) then TopColor(ds, y, x) else Pixel(before, pitch, y, x)
    }

    lemma PaintOne(before: seq<pixel>, s: seq<pixel>, r: seq<pixel>, d: Drawn, ds: seq<Drawn>, i: int, j: int)
      requires PaintedOver(s, before, ds, i, j)
      requires forall y: int, x: int | 0 <= y < blockH * 32 && 0 <= x < pitch ::
        Pixel(r, pitch, y, x) == if InBlock(i, j, y, x) && Covers(d.shape, y, x) then d.shape.color else Pixel(s, pitch, y, x)
      ensures PaintedOver(r, before, [d] + ds, i, j)
    {
      TopOf(d, ds);
      hide TopColor, Pixel;
    }

    lemma PaintNothing(before: seq<pixel>, s: seq<pixel>, r: seq<pixel>, ds: seq<Drawn>, i: int, j: int)
      requires PaintedOver(s, before, ds, i, j)
      requires forall y: int, x: int | 0 <= y < blockH * 32 && 0 <= x < pitch :: Pixel(r, pitch, y, x) == Pixel(s, pitch, y, x)
      ensures PaintedOver(r, before, ds, i, j)
    {}

    lemma PaintedShows(s: seq<pixel>, before: seq<pixel>, ds: seq<Drawn>, i: int, j: int)
      requires Dimensions() && OnCanvas(i, j) && PaintedOver(s, before, ds, i, j)
      ensures Shows(s, ds, i, j)
      ensures forall y: int, x: int | 0 <= y < blockH * 32 && 0 <= x < pitch && !InBlock(i, j, y, x) ::
        Pixel(s, pitch, y, x) == Pixel(before, pitch, y, x)
    {
      BlockFits(i, j);
      hide Pixel, TopColor;
    }

    /** One call of a block's queue: the flip function's leaves the pixels alone. */
    method RunNode(b: Block, n: nat, ghost queue: seq<Drawn>, ghost i: int, ghost j: int)
      requires Dimensions() && OnCanvas(i, j) && Queued(b, LocalTo(scene, i, j), i, j)
      requires n <= |queue| == |LocalTo(scene, i, j)| && (n > 0 ==> queue[n - 1] == Look(LocalTo(scene, i, j)[n - 1]))
      modifies buf, this`flips
      ensures flips == old(flips) + if n == 0 then [Flipping(j * 64, i * 32, buf[..])] else []
      ensures forall y: int, x: int | 0 <= y < blockH * 32 && 0 <= x < pitch ::
        Pixel(buf[..], pitch, y, x) ==
          if n > 0 && InBlock(i, j, y, x) && Covers(queue[n - 1].shape, y, x) then queue[n - 1].shape.color
          else Pixel(old(buf[..]), pitch, y, x)
    {
      hide Meets, Local, At, Pixel;
      BlockFits(i, j);
      var node := b.pipeline[n];
      if node.Flip? {
        flips := flips + [Flipping(node.x, node.y, buf[..])];
      }
      if node.Call? {
        DrawLocal(buf, b.ptr, pitch, node.box, node.x, node.y, blockH * 32, i, j);
      }
    }

    lemma BlockFits(i: int, j: int)
      requires Dimensions() && OnCanvas(i, j)
      ensures i * 32 + 32 <= blockH * 32 && j * 64 + 64 <= pitch
    {}

    /** The block has been brought up to date with the queue `ds`. */
    ghost predicate Done(b: Block, s: seq<pixel>, ds: seq<Drawn>, i: int, j: int) {
      && b.ptr == At(pitch, i * 32, j * 64)
      && 1 <= |b.pipeline| && b.pipeline[0] == Flip(j * 64, i * 32)
      && b.totalObject == 1 && b.totalLast == 1 + |ds|
      && Shows(s, ds, i, j)
    }

    ghost predicate Pending(b: Block, s: seq<pixel>, i: int, j: int)
      reads this`scene, this`shown
    {
      Queued(b, LocalTo(scene, i, j), i, j) && Current(b, s, i, j)
    }

    ghost predicate AllStale()
      reads this, block
    {
      forall i: int, j: int | OnCanvas(i, j) :: Stale(i, j)
    }

    /** Exactly when a block is passed over: no repaint is due, nothing dirty
        was queued, and as much is queued as on record. */
    lemma SkipsWhen(i: int, j: int)
      requires Valid() && OnCanvas(i, j)
      ensures Skips(i, j) <==>
        && !Stale(i, j) && AllClean(LocalTo(scene, i, j))
        && |LocalTo(scene, i, j)| == |shown(i, j)|
    {
      hide Meets, Shows, Local;
      assert BlockOk(i, j);
    }

    /** What a block shows after canvas_update: its new queue, unless it is
        passed over while its picture is another. */
    ghost function Target(b: Block, s: seq<pixel>, ds: seq<Drawn>, was: seq<Drawn>, i: int, j: int): seq<Drawn> {
      if b.totalObject == b.totalLast && !Shows(s, ds, i, j) then was else ds
    }

    /** The pixels of the block are the same in both buffers. */
    ghost predicate SameBlock(r: seq<pixel>, s: seq<pixel>, i: int, j: int) {
      forall y: int, x: int | InBlock(i, j, y, x) :: Pixel(r, pitch, y, x) == Pixel(s, pitch, y, x)
    }

    lemma SameShows(r: seq<pixel>, s: seq<pixel>, ds: seq<Drawn>, i: int, j: int)
      requires SameBlock(r, s, i, j)
      ensures Shows(r, ds, i, j) <==> Shows(s, ds, i, j)
    {}

    /** Painting one block leaves the others alone. */
    lemma OthersKeep(s: seq<pixel>, r: seq<pixel>, i: int, j: int, bi: int, bj: int)
      requires Dimensions() && OnCanvas(i, j) && OnCanvas(bi, bj) && (bi != i || bj != j)
      requires forall y: int, x: int | 0 <= y < blockH * 32 && 0 <= x < pitch && !InBlock(i, j, y, x) ::
        Pixel(r, pitch, y, x) == Pixel(s, pitch, y, x)
      ensures SameBlock(r, s, bi, bj)
    {
      BlockFits(bi, bj);
      forall y: int, x: int | InBlock(bi, bj, y, x)
        ensures Pixel(r, pitch, y, x) == Pixel(s, pitch, y, x)
      {
        assert !InBlock(i, j, y, x);
      }
    }

    /** Lines 182-191 of canvas_update, for the block at index `k`: it is painted,
        or passed over and left as it is. */
    method UpdateBlock(k: int, ghost ls: seq<Drawn>, ghost i: int, ghost j: int)
      requires Dimensions() && OnCanvas(i, j) && k == At(blockW, i, j) && LooksNow(ls)
      requires Pending(BlockAt(block[..], i, j), buf[..], i, j)
      modifies block, buf, this`flips
      ensures flips == old(flips) + if old(Skips(i, j)) then [] else [Flipping(j * 64, i * 32, buf[..])]
      ensures Done(BlockAt(block[..], i, j), buf[..],
                   Target(BlockAt(old(block[..]), i, j), old(buf[..]), Sift(scene, ls, i, j), shown(i, j), i, j), i, j)
      ensures if old(Skips(i, j)) then buf[..] == old(buf[..]) else Shows(buf[..], Sift(scene, ls, i, j), i, j)
      ensures forall bi: int, bj: int | OnCanvas(bi, bj) && (bi != i || bj != j) ::
        BlockAt(block[..], bi, bj) == BlockAt(old(block[..]), bi, bj) && SameBlock(buf[..], old(buf[..]), bi, bj)
    {
      SiftLooks(scene, ls, i, j);
      hide Meets, Shows, Local, SameBlock, Sift, LooksNow;
      InTable(blockW, blockH, i, j);
      ghost var was, before := block[..], buf[..];
      var b := block[k];
      if b.totalObject != b.totalLast {
        Repaint(b, ls, i, j);
        b := b.(totalLast := b.totalObject);
        forall bi: int, bj: int | OnCanvas(bi, bj) && (bi != i || bj != j)
          ensures SameBlock(buf[..], before, bi, bj)
        {
          OthersKeep(before, buf[..], i, j, bi, bj);
        }
      } else {
        forall bi: int, bj: int
          ensures SameBlock(before, before, bi, bj)
        {
          Unchanged(before, bi, bj);
        }
      }
      block[k] := b.(totalObject := 1);
      forall bi: int, bj: int | OnCanvas(bi, bj) && (bi != i || bj != j)
        ensures BlockAt(block[..], bi, bj) == BlockAt(was, bi, bj)
      {
        RowStretch(blockW, i, j, 1, bi, bj);
      }
    }

    lemma Unchanged(s: seq<pixel>, i: int, j: int)
      ensures SameBlock(s, s, i, j)
    {}

    ghost predicate Earlier(bi: int, bj: int, i: int, j: int) {
      bi < i || (bi == i && bj < j)
    }

    /** With the frames just shown on record, an empty next frame is in order. */
    lemma FinishedFrame()
      requires Dimensions() && scene == []
      requires forall i: int, j: int | OnCanvas(i, j) :: Done(BlockAt(block[..], i, j), buf[..], shown(i, j), i, j)
      ensures Valid()
    {}

    lemma StartPending()
      requires Valid()
      ensures forall i: int, j: int | OnCanvas(i, j) :: Pending(BlockAt(block[..], i, j), buf[..], i, j)
    {
      forall i: int, j: int | OnCanvas(i, j)
        ensures Pending(BlockAt(block[..], i, j), buf[..], i, j)
      {
        assert BlockOk(i, j);
      }
    }

    /** What the pixel at (y, x) is to show when the update comes. */
    ghost function Due(y: int, x: int): pixel
      reads this, block, set d | d in scene :: d.box
    {
      TopColor(if Skips(y / 32, x / 64) then shown(y / 32, x / 64) else Queue(y / 32, x / 64), y, x)
    }

    /** Every pixel of the canvas has the colour of the first request of the
        frame that covers it, or 0. */
    ghost predicate Painted(ds: seq<Drawn>)
      reads this, buf
    {
      forall y: int, x: int | 0 <= y < height && 0 <= x < width :: Pixel(buf[..], pitch, y, x) == TopColor(ds, y, x)
    }

    /** In every block that will be passed over, the queue on record and the new
        frame are the same picture. */
    ghost predicate SkippedAgree()
      reads this, block
    {
      forall y: int, x: int | 0 <= y < height && 0 <= x < width && Skips(y / 32, x / 64) ::
        TopColor(shown(y / 32, x / 64), y, x) == TopColor(scene, y, x)
    }

    /** The discipline, towards the records of the blocks passed over: what is
        queued there was painted there, looking the same and in the same order. */
    ghost predicate DisciplinedBlocks()
      reads this, block
    {
      forall i: int, j: int | OnCanvas(i, j) && Skips(i, j) :: Subsequence(LocalTo(scene, i, j), shown(i, j))
    }

    /** The loop of canvas_update, of any frame. A block that is not passed over
        shows its queue; any other keeps its pixels, and so the queue on record. */
    method UpdateBlocks()
      requires Valid()
      modifies this`scene, this`shown, this`flips, block, buf
      ensures Places(flips) == Places(old(flips)) + FlipsBefore(old(block[..]), blockH, 0)
      ensures Valid() && scene == []
      ensures forall y: int, x: int | 0 <= y < height && 0 <= x < width ::
        Pixel(buf[..], pitch, y, x) == old(Due(y, x))
      ensures forall i: int, j: int | OnCanvas(i, j) ::
        && !Stale(i, j)
        && (old(Skips(i, j)) ==> SameBlock(buf[..], old(buf[..]), i, j))
        && shown(i, j) == Target(BlockAt(old(block[..]), i, j), old(buf[..]), old(Queue(i, j)), old(shown)(i, j), i, j)
    {
      hide Meets, Shows, Done, Pending, Local, TopColor, Target, SameBlock, Finished, Sift, Looks, Places, FlipsBefore, Midway;
      ghost var was, before, frames := block[..], buf[..], shown;
      ghost var ds, ls := scene, Looks(scene);
      ghost var i, j := 0, 0;
      var k := 0;
      MulMonotone(0, blockH, blockW);
      NoPlaces(was, Places(flips));
      StartMidway(ls);
      while k < blockW * blockH
        invariant 0 <= j < blockW && 0 <= i <= blockH && k == At(blockW, i, j) && (i == blockH ==> j == 0)
        invariant LooksNow(ls) && Midway(was, before, ls, i, j)
        invariant Places(flips) == Places(old(flips)) + FlipsBefore(was, i, j)
        decreases blockW * blockH - k
        modifies block, buf, this`flips
      {
        ghost var called := flips;
        UpdateNext(k, was, before, ls, i, j);
        NextPlace(called, flips, was, Places(old(flips)), i, j);
        k := k + 1;
        j := j + 1;
        if j == blockW {
          assert (i + 1) * blockW == i * blockW + blockW;
          i, j := i + 1, 0;
        }
      }
      assert i == blockH by {
        if i < blockH {
          InTable(blockW, blockH, i, j);
        }
      }
      EndMidway(was, before, ls);
      shown := (bi: int, bj: int) => Target(BlockAt(was, bi, bj), before, Sift(ds, ls, bi, bj), frames(bi, bj), bi, bj);
      scene := [];
      FinishedFrame();
    }

    /** In the loop of canvas_update: the blocks before (i, j) have been dealt
        with, the others are as they were. */
    ghost predicate Midway(was: seq<Block>, before: seq<pixel>, ls: seq<Drawn>, i: int, j: int)
      reads this`scene, this`shown, block, buf
      requires |ls| == |scene|
    {
      && (forall bi: int, bj: int | OnCanvas(bi, bj) && Earlier(bi, bj, i, j) ::
            Finished(BlockAt(block[..], bi, bj), buf[..], BlockAt(was, bi, bj), before, Sift(scene, ls, bi, bj), bi, bj))
      && (forall bi: int, bj: int | OnCanvas(bi, bj) && !Earlier(bi, bj, i, j) ::
            && Pending(BlockAt(block[..], bi, bj), buf[..], bi, bj)
            && BlockAt(block[..], bi, bj) == BlockAt(was, bi, bj) && SameBlock(buf[..], before, bi, bj))
      && (forall bi: int, bj: int | OnCanvas(bi, bj) :: Pending(BlockAt(was, bi, bj), before, bi, bj))
    }

    lemma StartMidway(ls: seq<Drawn>)
      requires Valid() && |ls| == |scene|
      ensures Midway(block[..], buf[..], ls, 0, 0)
    {
      hide Pending, SameBlock, Finished, Valid;
      StartPending();
      forall bi: int, bj: int
        ensures SameBlock(buf[..], buf[..], bi, bj)
      {
        Unchanged(buf[..], bi, bj);
      }
    }

    lemma EndMidway(was: seq<Block>, before: seq<pixel>, ls: seq<Drawn>)
      requires Dimensions() && |ls| == |scene| && Midway(was, before, ls, blockH, 0)
      ensures forall y: int, x: int | 0 <= y < height && 0 <= x < width ::
        var b := BlockAt(was, y / 32, x / 64);
        Pixel(buf[..], pitch, y, x) ==
          TopColor(if b.totalObject == b.totalLast then shown(y / 32, x / 64) else Sift(scene, ls, y / 32, x / 64), y, x)
      ensures forall i: int, j: int | OnCanvas(i, j) ::
        && Done(BlockAt(block[..], i, j), buf[..], Target(BlockAt(was, i, j), before, Sift(scene, ls, i, j), shown(i, j), i, j), i, j)
        && !Stale(i, j)
        && (BlockAt(was, i, j).totalObject == BlockAt(was, i, j).totalLast ==> SameBlock(buf[..], before, i, j))
    {
      hide Pending, SameBlock, Finished, TopColor, Sift, Pixel, Done, Target;
      AllFinished(was, before, ls);
    }

    /** One turn of the loop in canvas_update. */
    method UpdateNext(k: int, ghost was: seq<Block>, ghost before: seq<pixel>, ghost ls: seq<Drawn>, ghost i: int, ghost j: int)
      requires Dimensions() && OnCanvas(i, j) && k == At(blockW, i, j) && LooksNow(ls) && Midway(was, before, ls, i, j)
      modifies block, buf, this`flips
      ensures LooksNow(ls)
      ensures if j + 1 == blockW then Midway(was, before, ls, i + 1, 0) else Midway(was, before, ls, i, j + 1)
      ensures flips == old(flips) + if BlockAt(was, i, j).totalObject == BlockAt(was, i, j).totalLast then []
                                    else [Flipping(j * 64, i * 32, buf[..])]
    {
      hide Meets, Shows, Done, Pending, Local, TopColor, Target, SameBlock, Finished, Sift, Looks;
      ghost var now, mid := block[..], buf[..];
      UpdateBlock(k, ls, i, j);
      NowFinished(BlockAt(now, i, j), BlockAt(block[..], i, j), mid, buf[..], before, Sift(scene, ls, i, j), i, j);
      forall bi: int, bj: int | OnCanvas(bi, bj) && (bi != i || bj != j)
        ensures Finished(BlockAt(now, bi, bj), mid, BlockAt(was, bi, bj), before, Sift(scene, ls, bi, bj), bi, bj)
          ==> Finished(BlockAt(block[..], bi, bj), buf[..], BlockAt(was, bi, bj), before, Sift(scene, ls, bi, bj), bi, bj)
        ensures Pending(BlockAt(now, bi, bj), mid, bi, bj) ==> Pending(BlockAt(block[..], bi, bj), buf[..], bi, bj)
        ensures SameBlock(mid, before, bi, bj) ==> SameBlock(buf[..], before, bi, bj)
      {
        KeepsStatus(BlockAt(now, bi, bj), BlockAt(was, bi, bj), mid, buf[..], before, Sift(scene, ls, bi, bj), bi, bj);
      }
    }

    /** The block `b`, which was `was` in the buffer `before`, has been dealt with. */
    ghost predicate Finished(b: Block, s: seq<pixel>, was: Block, before: seq<pixel>, q: seq<Drawn>, i: int, j: int)
      reads this`shown
    {
      && Done(b, s, Target(was, before, q, shown(i, j), i, j), i, j)
      && (if was.totalObject == was.totalLast then SameBlock(s, before, i, j) else Shows(s, q, i, j))
    }

    lemma NowFinished(was: Block, b: Block, mid: seq<pixel>, s: seq<pixel>, before: seq<pixel>, q: seq<Drawn>, i: int, j: int)
      requires SameBlock(mid, before, i, j)
      requires Done(b, s, Target(was, mid, q, shown(i, j), i, j), i, j)
      requires if was.totalObject == was.totalLast then s == mid else Shows(s, q, i, j)
      ensures Finished(b, s, was, before, q, i, j)
    {
      SameShows(mid, before, q, i, j);
      hide Shows, SameBlock, Done;
    }

    lemma KeepsStatus(b: Block, was: Block, mid: seq<pixel>, s: seq<pixel>, before: seq<pixel>, q: seq<Drawn>, i: int, j: int)
      requires SameBlock(s, mid, i, j)
      ensures Finished(b, mid, was, before, q, i, j) ==> Finished(b, s, was, before, q, i, j)
      ensures Pending(b, mid, i, j) ==> Pending(b, s, i, j)
      ensures SameBlock(mid, before, i, j) ==> SameBlock(s, before, i, j)
    {
      SameShows(s, mid, Target(was, before, q, shown(i, j), i, j), i, j);
      SameShows(s, mid, shown(i, j), i, j);
      SameShows(s, mid, q, i, j);
      hide Shows, Local, Target;
    }

    lemma AllFinished(was: seq<Block>, before: seq<pixel>, ls: seq<Drawn>)
      requires Dimensions() && |ls| == |scene|
      requires forall i: int, j: int | OnCanvas(i, j) ::
        && Finished(BlockAt(block[..], i, j), buf[..], BlockAt(was, i, j), before, Sift(scene, ls, i, j), i, j)
        && Pending(BlockAt(was, i, j), before, i, j)
      ensures forall y: int, x: int | 0 <= y < height && 0 <= x < width ::
        var b := BlockAt(was, y / 32, x / 64);
        Pixel(buf[..], pitch, y, x) ==
          TopColor(if b.totalObject == b.totalLast then shown(y / 32, x / 64) else Sift(scene, ls, y / 32, x / 64), y, x)
      ensures forall i: int, j: int | OnCanvas(i, j) ::
        && Done(BlockAt(block[..], i, j), buf[..], Target(BlockAt(was, i, j), before, Sift(scene, ls, i, j), shown(i, j), i, j), i, j)
        && !Stale(i, j)
        && (BlockAt(was, i, j).totalObject == BlockAt(was, i, j).totalLast ==> SameBlock(buf[..], before, i, j))
    {
      hide Meets, Local, TopColor, Target, SameBlock, Pixel, Sift;
      forall y: int, x: int | 0 <= y < height && 0 <= x < width
        ensures var b := BlockAt(was, y / 32, x / 64);
          Pixel(buf[..], pitch, y, x) ==
            TopColor(if b.totalObject == b.totalLast then shown(y / 32, x / 64) else Sift(scene, ls, y / 32, x / 64), y, x)
      {
        var i, j := y / 32, x / 64;
        assert OnCanvas(i, j) && InBlock(i, j, y, x);
        assert Finished(BlockAt(block[..], i, j), buf[..], BlockAt(was, i, j), before, Sift(scene, ls, i, j), i, j);
        var b := BlockAt(was, i, j);
        if b.totalObject == b.totalLast {
          assert Pending(b, before, i, j);
          SameShows(buf[..], before, shown(i, j), i, j);
        }
      }
    }

    /** Where every block is due for painting the discipline asks for nothing. */
    lemma StaleNeedsNoDiscipline()
      requires Valid() && AllStale()
      ensures DisciplinedBlocks()
    {
      forall i: int, j: int | OnCanvas(i, j)
        ensures !Skips(i, j)
      {
        assert BlockOk(i, j) && Stale(i, j);
      }
    }

    /** The blocks of the given flips, in their order. */
    ghost function Places(fs: seq<Flipping>): (r: seq<(int, int)>)
      ensures |r| == |fs|
    {
      if fs == [] then [] else Places(fs[..|fs| - 1]) + [(fs[|fs| - 1].x, fs[|fs| - 1].y)]
    }

    /** The blocks in front of block (i, j), row by row, that are not passed over. */
    ghost function FlipsBefore(was: seq<Block>, i: int, j: int): seq<(int, int)>
      decreases i, j
    {
      if i < 0 || j < 0 || blockW == 0 || (i == 0 && j == 0) then []
      else if j == 0 then FlipsUpTo(was, i - 1, blockW - 1) else FlipsUpTo(was, i, j - 1)
    }

    ghost function FlipsUpTo(was: seq<Block>, i: int, j: int): seq<(int, int)>
      decreases i, j + 1, 0
    {
      if i < 0 || j < 0 then [] else
      FlipsBefore(was, i, j)
      + if BlockAt(was, i, j).totalObject == BlockAt(was, i, j).totalLast then [] else [(j * 64, i * 32)]
    }

    lemma InOneBlock()
      requires Valid() && width == 64 && height == 32
      ensures OnCanvas(0, 0)
    {}

    lemma BothFlipped()
      requires Valid() && AllStale() && width == 128 && height == 32
      ensures FlipsBefore(block[..], blockH, 0) == [(0, 0), (64, 0)]
    {
      hide At, Local;
      assert blockW == 2 && blockH == 1;
      forall j: int | 0 <= j < 2
        ensures BlockAt(block[..], 0, j).totalObject != BlockAt(block[..], 0, j).totalLast
      {
        assert OnCanvas(0, j) && BlockOk(0, j) && Stale(0, j);
      }
      assert FlipsBefore(block[..], 0, 0) == [];
      assert FlipsUpTo(block[..], 0, 0) == [(0, 0)] == FlipsBefore(block[..], 0, 1);
      assert FlipsUpTo(block[..], 0, 1) == [(0, 0), (64, 0)];
    }

    lemma NoPlaces(was: seq<Block>, start: seq<(int, int)>)
      ensures start + FlipsBefore(was, 0, 0) == start
    {}

    /** One more block: its place joins, unless it was passed over. */
    lemma NextPlace(fs: seq<Flipping>, gs: seq<Flipping>, was: seq<Block>, start: seq<(int, int)>, i: int, j: int)
      requires OnCanvas(i, j) && start + FlipsBefore(was, i, j) == Places(fs)
      requires if BlockAt(was, i, j).totalObject == BlockAt(was, i, j).totalLast then gs == fs
        else |gs| == |fs| + 1 && gs[..|fs|] == fs && gs[|fs|].x == j * 64 && gs[|fs|].y == i * 32
      ensures Places(gs) == start + if j + 1 == blockW then FlipsBefore(was, i + 1, 0) else FlipsBefore(was, i, j + 1)
    {
      var next := FlipsUpTo(was, i, j);
      assert next == if j + 1 == blockW then FlipsBefore(was, i + 1, 0) else FlipsBefore(was, i, j + 1);
      var place := if BlockAt(was, i, j).totalObject == BlockAt(was, i, j).totalLast then [] else [(j * 64, i * 32)];
      assert next == FlipsBefore(was, i, j) + place;
      assert (start + FlipsBefore(was, i, j)) + place == start + (FlipsBefore(was, i, j) + place);
      assert Places(gs) == Places(fs) + place;
    }

    /** canvas_update. Every pixel of the canvas shows what was due. So when no
        box has changed its looks since it was drawn, the whole frame is right
        exactly when each block that is passed over has the same picture on
        record. The discipline is enough for that, and then the new frame is on
        every record. */
    method Update()
      requires Valid()
      modifies this`scene, this`shown, this`flips, block, buf
      ensures Places(flips) == Places(old(flips)) + FlipsBefore(old(block[..]), blockH, 0)
      ensures Valid() && scene == []
      ensures forall y: int, x: int | 0 <= y < height && 0 <= x < width ::
        Pixel(buf[..], pitch, y, x) == old(Due(y, x))
      ensures forall i: int, j: int | OnCanvas(i, j) :: !Stale(i, j)
      ensures forall i: int, j: int | OnCanvas(i, j) ::
        shown(i, j) == Target(BlockAt(old(block[..]), i, j), old(buf[..]), old(Queue(i, j)), old(shown)(i, j), i, j)
      ensures old(SceneUnchanged()) ==> (Painted(old(scene)) <==> old(SkippedAgree()))
      ensures old(SceneUnchanged() && DisciplinedBlocks()) ==>
        Painted(old(scene)) && forall i: int, j: int | OnCanvas(i, j) :: shown(i, j) == LocalTo(old(scene), i, j)
    {
      hide Meets, Local, TopColor, Shows, Target, SameBlock, Subsequence, Queue;
      if SceneUnchanged() {
        DueUnchanged();
      }
      if SceneUnchanged() && DisciplinedBlocks() {
        forall i: int, j: int | OnCanvas(i, j)
          ensures Target(BlockAt(block[..], i, j), buf[..], Queue(i, j), shown(i, j), i, j) == LocalTo(scene, i, j)
        {
          DisciplinedTarget(i, j);
        }
        DisciplineAgrees();
      }
      UpdateBlocks();
    }

    /** With unchanged boxes, what is due in a block that is painted is the frame. */
    lemma DueUnchanged()
      requires Dimensions() && SceneUnchanged()
      ensures forall y: int, x: int | 0 <= y < height && 0 <= x < width ::
        Due(y, x) == TopColor(if Skips(y / 32, x / 64) then shown(y / 32, x / 64) else scene, y, x)
    {
      forall y: int, x: int | 0 <= y < height && 0 <= x < width
        ensures TopColor(Queue(y / 32, x / 64), y, x) == TopColor(scene, y, x)
      {
        QueueLooks(y / 32, x / 64);
        assert InBlock(y / 32, x / 64, y, x);
        LocalPaintsAll(width, height, scene, y / 32, x / 64, y, x);
      }
    }

    /** In a disciplined block that is passed over, the record and the new queue
        are the same picture, so the block shows the new queue. */
    lemma DisciplinedTarget(i: int, j: int)
      requires Valid() && OnCanvas(i, j) && SceneUnchanged()
      requires Skips(i, j) ==> Subsequence(LocalTo(scene, i, j), shown(i, j))
      ensures Target(BlockAt(block[..], i, j), buf[..], Queue(i, j), shown(i, j), i, j) == LocalTo(scene, i, j)
      ensures Skips(i, j) ==> forall y: int, x: int ::
        TopColor(shown(i, j), y, x) == TopColor(LocalTo(scene, i, j), y, x)
    {
      assert BlockOk(i, j);
      QueueLooks(i, j);
      hide Local, Queue;
      if Skips(i, j) {
        forall y: int, x: int
          ensures TopColor(shown(i, j), y, x) == TopColor(LocalTo(scene, i, j), y, x)
        {
          SameLengthSamePicture(LocalTo(scene, i, j), shown(i, j), y, x);
        }
      }
    }

    lemma DisciplineAgrees()
      requires Valid() && SceneUnchanged() && DisciplinedBlocks()
      ensures SkippedAgree()
    {
      forall y: int, x: int | 0 <= y < height && 0 <= x < width && Skips(y / 32, x / 64)
        ensures TopColor(shown(y / 32, x / 64), y, x) == TopColor(scene, y, x)
      {
        var i, j := y / 32, x / 64;
        assert OnCanvas(i, j) && InBlock(i, j, y, x);
        DisciplinedTarget(i, j);
        LocalPaintsAll(width, height, scene, i, j, y, x);
      }
    }

    /** From one frame to the next: when every record is that of the last frame
        and the new frame is disciplined towards it, so is every block. */
    lemma FrameDiscipline(last: seq<Drawn>)
      requires Valid() && Disciplined(scene, last)
      requires forall i: int, j: int | OnCanvas(i, j) :: shown(i, j) == LocalTo(last, i, j)
      ensures DisciplinedBlocks()
    {
      forall i: int, j: int | OnCanvas(i, j) && Skips(i, j)
        ensures Subsequence(LocalTo(scene, i, j), shown(i, j))
      {
        SkipsWhen(i, j);
        SkippedBlockIsCurrent(width, height, scene, last, i, j);
      }
    }

    /** canvas_redraw: every block is to be repainted at the next update. */
    method Redraw()
      requires Valid()
      modifies block
      ensures Valid() && AllStale() && buf[..] == old(buf[..])
    {
      var k := 0;
      ghost var was := block[..];
      MulMonotone(0, blockH, blockW);
      while k < blockW * blockH
        invariant 0 <= k <= blockW * blockH
        invariant forall l | 0 <= l < block.Length ::
          block[l] == if l < k then was[l].(totalLast := 0) else was[l]
      {
        block[k] := block[k].(totalLast := 0);
        k := k + 1;
      }
      forall i: int, j: int | OnCanvas(i, j)
        ensures BlockOk(i, j) && BlockAt(block[..], i, j).totalLast <= 0
      {
        InTable(blockW, blockH, i, j);
        assert old(BlockOk(i, j));
      }
    }
  }

  /** A one-pixel box in the corner of a fresh canvas of one block. */
  method ShowCorner(color: pixel) returns (canvas: Canvas, box: Box)
    ensures fresh(canvas) && fresh(canvas.block) && fresh(canvas.buf) && fresh(box)
    ensures canvas.Valid() && canvas.width == 64 && canvas.height == 32 && canvas.pitch == 64 && canvas.scene == []
    ensures box.width == 1 && box.height == 1 && box.kx == 0 && box.ky == 0 && box.color == color && !box.dirty
    ensures !canvas.Stale(0, 0) && canvas.shown(0, 0) == [Drawn(box, Shape(0, 0, 1, 1, color), true)]
  {
    hide Local, Meets, TopColor, Pixel, At, Subsequence, Canvas.Valid, Canvas.Places, Canvas.FlipsBefore, Canvas.Queue,
      Canvas.SkippedAgree, Canvas.DisciplinedBlocks, Canvas.Due, Canvas.Painted, Canvas.BlockAt;
    canvas, box := DrawCorner(color);
    canvas.Update();
    assert canvas.OnCanvas(0, 0);
  }

  method DrawCorner(color: pixel) returns (canvas: Canvas, box: Box)
    ensures fresh(canvas) && fresh(canvas.block) && fresh(canvas.buf) && fresh(box)
    ensures canvas.Valid() && canvas.width == 64 && canvas.height == 32 && canvas.pitch == 64
    ensures box.width == 1 && box.height == 1 && box.kx == 0 && box.ky == 0 && box.color == color && !box.dirty
    ensures canvas.OnCanvas(0, 0) && !canvas.Skips(0, 0)
    ensures canvas.Queue(0, 0) == [Drawn(box, Shape(0, 0, 1, 1, color), true)]
  {
    hide Local, Meets, TopColor, Pixel, At, Canvas.Valid, Canvas.BlockAt, Canvas.Queue;
    var buf := new pixel[2048];
    canvas := new Canvas(64, 32, buf, 64);
    box := new Box(1, 1, 0, 0, color);
    canvas.DrawBox(box, 0, 0);
    ghost var first := Drawn(box, Shape(0, 0, 1, 1, color), true);
    assert canvas.scene == [first] && canvas.SceneUnchanged();
    OneLocal(first);
    canvas.QueueLooks(0, 0);
    assert canvas.LocalTo([first], 0, 0) == [first];
    canvas.InOneBlock();
    canvas.SkipsWhen(0, 0);
  }

  /** What a client sees who moves a box without marking it dirty: it was drawn
      in the corner, is drawn one pixel to the right, and the corner keeps its
      colour, although nothing covers it any more. */
  method MoveCleanBox(color: pixel) returns (canvas: Canvas, ghost last: seq<Drawn>)
    ensures canvas.Valid() && canvas.width == 64 && canvas.height == 32 && canvas.pitch == 64
    ensures |last| == 1 && last[0].shape == Shape(1, 0, 1, 1, color) && !last[0].dirty
    ensures Pixel(canvas.buf[..], 64, 0, 0) == color && Pixel(canvas.buf[..], 64, 0, 1) == 0
    ensures color != 0 ==> !canvas.Painted(last)
  {
    var box;
    canvas, box := ShowCorner(color);
    ghost var was, now := Drawn(box, Shape(0, 0, 1, 1, color), true), Drawn(box, Shape(1, 0, 1, 1, color), false);
    OneColor(was);
    OneColor(now);
    OneLocal(was);
    OneLocal(now);
    hide Local, Meets, TopColor, Pixel, At;
    canvas.DrawBox(box, 1, 0);
    last := [now];
    assert canvas.scene == last && canvas.OnCanvas(0, 0);
    assert canvas.Skips(0, 0) by { canvas.SkipsWhen(0, 0); }
    assert canvas.Due(0, 0) == color && canvas.Due(0, 1) == 0;
    canvas.Update();
  }

  lemma OneColor(d: Drawn)
    ensures forall y: int, x: int :: TopColor([d], y, x) == if Covers(d.shape, y, x) then d.shape.color else 0
  {
    assert [d][1..] == [];
  }

  /** A request that covers a pixel of the only block is queued there. */
  lemma OneLocal(d: Drawn)
    requires 0 <= d.shape.left < 64 && 0 <= d.shape.top < 32 && d.shape.width > 0 && d.shape.height > 0
    ensures Local(64, 32, [d], 0, 0) == [d]
  {
    assert InBlock(0, 0, d.shape.top, d.shape.left) && Covers(d.shape, d.shape.top, d.shape.left);
    assert Local(64, 32, [d][1..], 0, 0) == [];
  }

  /** Two overlapping boxes on a canvas of two blocks: the first drawn is on top,
      the hot spot is taken off the position, each block is flipped once. */
  method PaintTwo() returns (canvas: Canvas)
    ensures canvas.width == 128 && canvas.height == 32 && canvas.pitch == 128
    ensures var s := canvas.buf[..];
      && Pixel(s, 128, 10, 60) == 1 && Pixel(s, 128, 13, 67) == 1 && Pixel(s, 128, 12, 63) == 1
      && Pixel(s, 128, 14, 63) == 2 && Pixel(s, 128, 15, 65) == 2
      && Pixel(s, 128, 9, 60) == 0 && Pixel(s, 128, 10, 59) == 0 && Pixel(s, 128, 13, 68) == 0 && Pixel(s, 128, 16, 63) == 0
    ensures canvas.Places(canvas.flips) == [(0, 0), (64, 0)]
  {
    hide Local, Meets, TopColor, Pixel, At, Subsequence, Canvas.FlipsBefore, Canvas.Places, Canvas.AllStale, Canvas.Valid,
      Canvas.DisciplinedBlocks, Canvas.SkippedAgree, Canvas.Due, Canvas.BlockAt, Canvas.Target, Canvas.Queue;
    var first, second;
    canvas, first, second := DrawTwo();
    ghost var d1, d2 := Drawn(first, Shape(60, 10, 8, 4, 1), true), Drawn(second, Shape(62, 12, 4, 4, 2), true);
    canvas.StaleNeedsNoDiscipline();
    canvas.BothFlipped();
    TwoColors(d1, d2);
    ghost var scene := canvas.scene;
    canvas.Update();
    assert canvas.Painted(scene);
    assert [] + [(0, 0), (64, 0)] == [(0, 0), (64, 0)];
  }

  method DrawTwo() returns (canvas: Canvas, first: Box, second: Box)
    ensures fresh(canvas) && fresh(canvas.block) && fresh(canvas.buf)
    ensures canvas.Valid() && canvas.AllStale() && canvas.flips == []
    ensures canvas.width == 128 && canvas.height == 32 && canvas.pitch == 128
    ensures canvas.scene == [Drawn(first, Shape(60, 10, 8, 4, 1), true), Drawn(second, Shape(62, 12, 4, 4, 2), true)]
    ensures canvas.SceneUnchanged()
  {
    hide Local, Meets, TopColor, Pixel, At, Canvas.Valid, Canvas.BlockAt;
    var buf := new pixel[4096];
    canvas := new Canvas(128, 32, buf, 128);
    first := new Box(8, 4, 2, 1, 1);
    canvas.DrawBox(first, 62, 11);
    second := new Box(4, 4, 0, 0, 2);
    canvas.DrawBox(second, 62, 12);
  }

  lemma TwoColors(a: Drawn, b: Drawn)
    ensures forall y: int, x: int ::
      TopColor([a, b], y, x) == if Covers(a.shape, y, x) then a.shape.color else if Covers(b.shape, y, x) then b.shape.color else 0
  {
    TopOf(a, [b]);
    OneColor(b);
    assert [a] + [b] == [a, b];
  }
}

/** The client component `Home` (app/page.tsx): the session state it keeps
    between runs (the variable map, the list of rendered LaTeX strings, the
    current result and the reset flag), what a run does to that state, and
    the scan of the canvas pixels that decides where results are placed. */
module Page {
  import opened Wrappers
  import opened Json
  import opened Types
  import opened Utils

  /** One channel value of the canvas's `ImageData` buffer. */
  newtype byte = x: int | 0 <= x < 256

  /** Where the rendered results are placed on the canvas. */
  datatype Position = Position(x: real, y: real)

  /** The bounding box of the drawing that `runRoute` computes. */
  datatype Bounds = Bounds(minX: int, minY: int, maxX: int, maxY: int)

  // ---------------------------------------------------------------------------
  // Reading the server's answer list
  // ---------------------------------------------------------------------------

  /** How the client reads one answer object through its `Response` type: an
      entry is an assignment exactly when its `assign` is `true`, so the
      error entries, which have no `assign`, never are. Entries whose `expr`
      or `result` is not a string fall outside the declared type. */
  function AsResponse(entry: Json): (r: Option<Response>)
    ensures r.Some? <==>
              && entry.JObj?
              && "expr" in entry.fields && entry.fields["expr"].JStr?
              && "result" in entry.fields && entry.fields["result"].JStr?
    ensures r.Some? ==> entry.fields["expr"] == JStr(r.value.expr) && entry.fields["result"] == JStr(r.value.result)
    ensures r.Some? ==> (r.value.assign <==> "assign" in entry.fields && entry.fields["assign"] == JBool(true))
  {
    if && entry.JObj?
       && "expr" in entry.fields && entry.fields["expr"].JStr?
       && "result" in entry.fields && entry.fields["result"].JStr?
    then Some(Response(entry.fields["expr"].s, entry.fields["result"].s,
                       "assign" in entry.fields && entry.fields["assign"] == JBool(true)))
    else None
  }

  /** The error entries of the server read as non-assignment responses that
      carry the failure in their `expr` and `result`. */
  lemma ErrorEntryRead(expr: string, message: string)
    ensures AsResponse(ErrorList(expr, message)[0]) == Some(Response(expr, message, false))
  {
  }

  /** A processed answer object with string `expr` and `result` reads as an
      assignment exactly when the model's object had an `assign` key, even
      one whose value was `false`. */
  lemma ProcessedAssignRead(fields: map<string, Json>, expr: string, result: string)
    requires "expr" in fields && fields["expr"] == JStr(expr)
    requires "result" in fields && fields["result"] == JStr(result)
    ensures AsResponse(ProcessAnswer(JObj(fields))) == Some(Response(expr, result, "assign" in fields))
  {
  }

  // ---------------------------------------------------------------------------
  // The variable map after a run
  // ---------------------------------------------------------------------------

  /** The position of the last assignment entry of a batch, if any. */
  function LastAssignment(batch: seq<Response>): (r: Option<nat>)
    ensures r.Some? ==> r.value < |batch| && batch[r.value].assign
    ensures r.Some? ==> forall l :: r.value < l < |batch| ==> !batch[l].assign
    ensures r.None? ==> forall k :: 0 <= k < |batch| ==> !batch[k].assign
  {
    if batch == [] then None
    else if batch[|batch| - 1].assign then Some(|batch| - 1)
    else LastAssignment(batch[..|batch| - 1])
  }

  /** The variable map a run leaves behind, as the code behaves: every update
      in the loop spreads the map captured before the loop, and the last
      update wins, so the map gains only the last assignment of the batch. */
  function MergeAsWritten(vars: map<string, string>, batch: seq<Response>): (r: map<string, string>)
    ensures vars.Keys <= r.Keys
    ensures forall name :: name in r && (name !in vars || r[name] != vars[name]) ==>
              exists k :: 0 <= k < |batch| && batch[k].assign && batch[k].expr == name && batch[k].result == r[name]
    ensures forall a, b :: a in r && a !in vars && b in r && b !in vars ==> a == b
    ensures (forall k :: 0 <= k < |batch| ==> !batch[k].assign) ==> r == vars
  {
    match LastAssignment(batch)
    case None => vars
    case Some(k) => vars[batch[k].expr := batch[k].result]
  }

  /** The reading in which every assignment of the batch is applied in turn,
      a later one overwriting an earlier one with the same name. The client
      does not do this; it serves as the reference the code is compared to. */
  function ApplyAll(vars: map<string, string>, batch: seq<Response>): map<string, string>
    decreases batch
  {
    if batch == [] then vars
    else ApplyAll(if batch[0].assign then vars[batch[0].expr := batch[0].result] else vars, batch[1..])
  }

  /** A batch without assignment entries leaves the map as it was. */
  lemma MergeWithoutAssignment(vars: map<string, string>, batch: seq<Response>)
    requires forall k :: 0 <= k < |batch| ==> !batch[k].assign
    ensures MergeAsWritten(vars, batch) == vars
  {
  }

  /** After a batch with an assignment, the name of the last assignment is
      bound to its result, and every other name keeps exactly what it had
      before the run: present with the same value, or absent. */
  lemma MergeBindsLastOnly(vars: map<string, string>, batch: seq<Response>, k: nat, name: string)
    requires k < |batch| && batch[k].assign
    requires forall l :: k < l < |batch| ==> !batch[l].assign
    ensures batch[k].expr in MergeAsWritten(vars, batch)
    ensures MergeAsWritten(vars, batch)[batch[k].expr] == batch[k].result
    ensures name != batch[k].expr ==>
              && (name in MergeAsWritten(vars, batch) <==> name in vars)
              && (name in vars ==> MergeAsWritten(vars, batch)[name] == vars[name])
  {
    // Both k and the result of LastAssignment are the last assignment.
    var last := LastAssignment(batch);
    assert last.Some? && last.value <= k && k <= last.value;
  }

  /** Applying the same batch a second time changes nothing. */
  lemma MergeIdempotent(vars: map<string, string>, batch: seq<Response>)
    ensures MergeAsWritten(MergeAsWritten(vars, batch), batch) == MergeAsWritten(vars, batch)
  {
    match LastAssignment(batch)
    case None =>
    case Some(k) =>
      assert vars[batch[k].expr := batch[k].result][batch[k].expr := batch[k].result]
          == vars[batch[k].expr := batch[k].result];
  }

  /** In the reference reading, an assignment that no later assignment of
      the batch overrides is in the final map. */
  lemma {:induction false} ApplyAllKeeps(vars: map<string, string>, batch: seq<Response>, k: nat)
    requires k < |batch| && batch[k].assign
    requires forall l :: k < l < |batch| && batch[l].assign ==> batch[l].expr != batch[k].expr
    ensures batch[k].expr in ApplyAll(vars, batch)
    ensures ApplyAll(vars, batch)[batch[k].expr] == batch[k].result
    decreases batch
  {
    var next := if batch[0].assign then vars[batch[0].expr := batch[0].result] else vars;
    if k == 0 {
      ApplyAllUntouched(next, batch[1..], batch[0].expr);
    } else {
      ApplyAllKeeps(next, batch[1..], k - 1);
    }
  }

  /** In the reference reading, a name that no assignment of the batch
      targets keeps its binding. */
  lemma {:induction false} ApplyAllUntouched(vars: map<string, string>, batch: seq<Response>, name: string)
    requires forall l :: 0 <= l < |batch| && batch[l].assign ==> batch[l].expr != name
    ensures name in ApplyAll(vars, batch) <==> name in vars
    ensures name in vars ==> ApplyAll(vars, batch)[name] == vars[name]
    decreases batch
  {
    if batch != [] {
      var next := if batch[0].assign then vars[batch[0].expr := batch[0].result] else vars;
      ApplyAllUntouched(next, batch[1..], name);
    }
  }

  /** The client loses assignments: an assignment followed by a later one to
      a different name is missing from the map the client keeps (when the
      name was not bound before the run), while applying every assignment in
      turn would have kept it. */
  lemma EarlierAssignmentLost(vars: map<string, string>, batch: seq<Response>, k: nat, l: nat)
    requires k < l < |batch| && batch[k].assign && batch[l].assign
    requires batch[k].expr !in vars
    requires forall m :: k < m < |batch| && batch[m].assign ==> batch[m].expr != batch[k].expr
    ensures batch[k].expr !in MergeAsWritten(vars, batch)
    ensures batch[k].expr in ApplyAll(vars, batch)
    ensures ApplyAll(vars, batch)[batch[k].expr] == batch[k].result
  {
    ApplyAllKeeps(vars, batch, k);
    // The last assignment comes no earlier than l, so after k.
    var last := LastAssignment(batch);
    assert last.Some? && l <= last.value;
  }

  // ---------------------------------------------------------------------------
  // The rendered LaTeX string and the placement of results
  // ---------------------------------------------------------------------------

  /** The LaTeX string shown for one expression and its answer. */
  function Latex(expression: string, answer: string): (r: string)
    ensures |r| == |expression| + |answer| + 15
    ensures r[..9] == "\\(\\LARGE{" && r[|r| - 3..] == "}\\)"
    ensures r[9..9 + |expression|] == expression
    ensures r[9 + |expression|..12 + |expression|] == " = "
    ensures r[12 + |expression|..|r| - 3] == answer
  {
    "\\(\\LARGE{" + expression + " = " + answer + "}\\)"
  }

  /** Given the length of the expression, the LaTeX string determines both
      the expression and the answer. */
  lemma LatexDetermines(e1: string, a1: string, e2: string, a2: string)
    requires |e1| == |e2| && Latex(e1, a1) == Latex(e2, a2)
    ensures e1 == e2 && a1 == a2
  {
  }

  /** Midpoint of two bounds, as `(min + max) / 2` in floating point. */
  function Center(lo: int, hi: int): (c: real)
    ensures 2.0 * c == (lo + hi) as real
    ensures lo <= hi ==> lo as real <= c <= hi as real
  {
    (lo + hi) as real / 2.0
  }

  /** Scaling both sides of an inequality by the same natural number keeps
      it. */
  lemma ScaleMonotone(a: int, b: int, c: nat)
    requires a <= b
    ensures a * c <= b * c
  {
    assert b * c - a * c == (b - a) * c;
  }

  /** Where the alpha channel of pixel `(x, y)` sits in the RGBA buffer:
      four bytes per pixel, row after row, alpha last. */
  function AlphaIndex(width: nat, x: int, y: int): int {
    (y * width + x) * 4 + 3
  }

  /** The alpha channel of pixel `(x, y)` lies inside the buffer. */
  lemma PixelIndexInBounds(width: nat, height: nat, x: int, y: int)
    requires 0 <= x < width && 0 <= y < height
    ensures 0 <= AlphaIndex(width, x, y) < 4 * width * height
  {
    ScaleMonotone(y + 1, height, width);
    assert (y + 1) * width == y * width + width;
    assert 4 * width * height == 4 * (height * width);
  }

  /** Pixel `(x, y)` has been drawn on: its alpha is not zero. */
  predicate Inked(pixels: array<byte>, width: nat, height: nat, x: int, y: int)
    reads pixels
    requires pixels.Length == 4 * width * height
    requires 0 <= x < width && 0 <= y < height
  {
    PixelIndexInBounds(width, height, x, y);
    pixels[AlphaIndex(width, x, y)] > 0
  }

  /** Some pixel of the canvas has been drawn on. */
  ghost predicate AnyInk(pixels: array<byte>, width: nat, height: nat)
    reads pixels
    requires pixels.Length == 4 * width * height
  {
    exists x, y :: 0 <= x < width && 0 <= y < height && Inked(pixels, width, height, x, y)
  }

  /** `[minX, maxX] x [minY, maxY]` is the smallest box holding every drawn
      pixel, each bound reached by one of them; on a blank canvas the bounds
      keep their starting values. */
  ghost predicate InkBox(pixels: array<byte>, width: nat, height: nat, minX: int, minY: int, maxX: int, maxY: int)
    reads pixels
    requires pixels.Length == 4 * width * height
  {
    && (forall x, y :: 0 <= x < width && 0 <= y < height && Inked(pixels, width, height, x, y) ==>
          minX <= x <= maxX && minY <= y <= maxY)
    && (AnyInk(pixels, width, height) ==>
          && 0 <= minX < width && 0 <= maxX < width && 0 <= minY < height && 0 <= maxY < height
          && (exists y :: 0 <= y < height && Inked(pixels, width, height, minX, y))
          && (exists y :: 0 <= y < height && Inked(pixels, width, height, maxX, y))
          && (exists x :: 0 <= x < width && Inked(pixels, width, height, x, minY))
          && (exists x :: 0 <= x < width && Inked(pixels, width, height, x, maxY)))
    && (!AnyInk(pixels, width, height) ==> minX == width && minY == height && maxX == 0 && maxY == 0)
  }

  /** The bounding box is determined by the pixels: two boxes that both meet
      `InkBox` are the same box. */
  lemma InkBoxUnique(pixels: array<byte>, width: nat, height: nat,
                     minX: int, minY: int, maxX: int, maxY: int,
                     minX': int, minY': int, maxX': int, maxY': int)
    requires pixels.Length == 4 * width * height
    requires InkBox(pixels, width, height, minX, minY, maxX, maxY)
    requires InkBox(pixels, width, height, minX', minY', maxX', maxY')
    ensures minX == minX' && minY == minY' && maxX == maxX' && maxY == maxY'
  {
    if AnyInk(pixels, width, height) {
      var y1 :| 0 <= y1 < height && Inked(pixels, width, height, minX, y1);
      var y2 :| 0 <= y2 < height && Inked(pixels, width, height, minX', y2);
      var y3 :| 0 <= y3 < height && Inked(pixels, width, height, maxX, y3);
      var y4 :| 0 <= y4 < height && Inked(pixels, width, height, maxX', y4);
      var x1 :| 0 <= x1 < width && Inked(pixels, width, height, x1, minY);
      var x2 :| 0 <= x2 < width && Inked(pixels, width, height, x2, minY');
      var x3 :| 0 <= x3 < width && Inked(pixels, width, height, x3, maxY);
      var x4 :| 0 <= x4 < width && Inked(pixels, width, height, x4, maxY');
    }
  }

  /** Pixel `(px, py)` comes before `(x, y)` in row order. */
  predicate Before(px: int, py: int, x: int, y: int) {
    py < y || (py == y && px < x)
  }

  /** Every drawn pixel before `(x, y)` lies in the box. */
  ghost predicate Covered(pixels: array<byte>, width: nat, height: nat, y: int, x: int,
                          minX: int, minY: int, maxX: int, maxY: int)
    reads pixels
    requires pixels.Length == 4 * width * height
  {
    forall px, py ::
      (0 <= px < width && 0 <= py < height && Before(px, py, x, y) && Inked(pixels, width, height, px, py)) ==>
        minX <= px <= maxX && minY <= py <= maxY
  }

  /** No pixel before `(x, y)` is drawn. */
  ghost predicate Blank(pixels: array<byte>, width: nat, height: nat, y: int, x: int)
    reads pixels
    requires pixels.Length == 4 * width * height
  {
    forall px, py :: 0 <= px < width && 0 <= py < height && Before(px, py, x, y) ==>
      !Inked(pixels, width, height, px, py)
  }

  /** Once a drawn pixel has been seen, each bound of the box is reached by
      one, recorded by the ghost witnesses. */
  ghost predicate Witnessed(pixels: array<byte>, width: nat, height: nat, found: bool,
                            minX: int, minY: int, maxX: int, maxY: int,
                            yAtMinX: int, yAtMaxX: int, xAtMinY: int, xAtMaxY: int)
    reads pixels
    requires pixels.Length == 4 * width * height
  {
    found ==>
      && 0 <= minX < width && 0 <= maxX < width && 0 <= minY < height && 0 <= maxY < height
      && 0 <= yAtMinX < height && Inked(pixels, width, height, minX, yAtMinX)
      && 0 <= yAtMaxX < height && Inked(pixels, width, height, maxX, yAtMaxX)
      && 0 <= xAtMinY < width && Inked(pixels, width, height, xAtMinY, minY)
      && 0 <= xAtMaxY < width && Inked(pixels, width, height, xAtMaxY, maxY)
  }

  /** What the scan knows once it has visited every pixel before `(x, y)`:
      each drawn pixel seen so far lies in the box; before the first one the
      box keeps its starting values; after it each bound is reached. */
  ghost predicate Scanned(pixels: array<byte>, width: nat, height: nat, y: int, x: int, found: bool,
                          minX: int, minY: int, maxX: int, maxY: int,
                          yAtMinX: int, yAtMaxX: int, xAtMinY: int, xAtMaxY: int)
    reads pixels
    requires pixels.Length == 4 * width * height
  {
    && Covered(pixels, width, height, y, x, minX, minY, maxX, maxY)
    && (!found ==> minX == width && minY == height && maxX == 0 && maxY == 0 && Blank(pixels, width, height, y, x))
    && Witnessed(pixels, width, height, found, minX, minY, maxX, maxY, yAtMinX, yAtMaxX, xAtMinY, xAtMaxY)
  }

  /** Passing over a pixel, drawn or not, keeps every earlier drawn pixel in
      a box that grows to hold that pixel when it is drawn. */
  lemma CoveredStep(pixels: array<byte>, width: nat, height: nat, y: int, x: int,
                    minX: int, minY: int, maxX: int, maxY: int,
                    minX': int, minY': int, maxX': int, maxY': int)
    requires pixels.Length == 4 * width * height
    requires 0 <= x < width && 0 <= y < height
    requires Covered(pixels, width, height, y, x, minX, minY, maxX, maxY)
    requires minX' <= minX && minY' <= minY && maxX <= maxX' && maxY <= maxY'
    requires Inked(pixels, width, height, x, y) ==> minX' <= x <= maxX' && minY' <= y <= maxY'
    ensures Covered(pixels, width, height, y, x + 1, minX', minY', maxX', maxY')
  {
    forall px, py | 0 <= px < width && 0 <= py < height && Before(px, py, x + 1, y) &&
                    Inked(pixels, width, height, px, py)
      ensures minX' <= px <= maxX' && minY' <= py <= maxY'
    {
      if Before(px, py, x, y) {
        assert minX <= px <= maxX && minY <= py <= maxY;
      } else {
        assert px == x && py == y;
      }
    }
  }

  /** A drawn pixel widens the box to hold it; each bound it moves is then
      reached by that pixel, and the first drawn pixel reaches all four. */
  lemma WitnessedStep(pixels: array<byte>, width: nat, height: nat, y: int, x: int, found: bool,
                      minX: int, minY: int, maxX: int, maxY: int,
                      yAtMinX: int, yAtMaxX: int, xAtMinY: int, xAtMaxY: int)
    requires pixels.Length == 4 * width * height
    requires 0 <= x < width && 0 <= y < height && Inked(pixels, width, height, x, y)
    requires !found ==> minX == width && minY == height && maxX == 0 && maxY == 0
    requires Witnessed(pixels, width, height, found, minX, minY, maxX, maxY, yAtMinX, yAtMaxX, xAtMinY, xAtMaxY)
    ensures Witnessed(pixels, width, height, true,
                      if x < minX then x else minX, if y < minY then y else minY,
                      if x > maxX then x else maxX, if y > maxY then y else maxY,
                      if !found || x < minX then y else yAtMinX, if !found || x > maxX then y else yAtMaxX,
                      if !found || y < minY then x else xAtMinY, if !found || y > maxY then x else xAtMaxY)
  {
  }

  /** Passing over a pixel that is not drawn keeps the visited part blank. */
  lemma BlankStep(pixels: array<byte>, width: nat, height: nat, y: int, x: int)
    requires pixels.Length == 4 * width * height
    requires 0 <= x < width && 0 <= y < height
    requires Blank(pixels, width, height, y, x)
    requires !Inked(pixels, width, height, x, y)
    ensures Blank(pixels, width, height, y, x + 1)
  {
    forall px, py | 0 <= px < width && 0 <= py < height && Before(px, py, x + 1, y)
      ensures !Inked(pixels, width, height, px, py)
    {
      if !Before(px, py, x, y) {
        assert px == x && py == y;
      }
    }
  }

  /** Visiting a drawn pixel: the box grows to hold it, and the witnesses
      of the bounds it moves become that pixel. */
  lemma ScanInked(pixels: array<byte>, width: nat, height: nat, y: int, x: int, found: bool,
                  minX: int, minY: int, maxX: int, maxY: int,
                  yAtMinX: int, yAtMaxX: int, xAtMinY: int, xAtMaxY: int)
    requires pixels.Length == 4 * width * height
    requires 0 <= x < width && 0 <= y < height && Inked(pixels, width, height, x, y)
    requires Scanned(pixels, width, height, y, x, found, minX, minY, maxX, maxY,
                     yAtMinX, yAtMaxX, xAtMinY, xAtMaxY)
    ensures Scanned(pixels, width, height, y, x + 1, true,
                    if x < minX then x else minX, if y < minY then y else minY,
                    if x > maxX then x else maxX, if y > maxY then y else maxY,
                    if !found || x < minX then y else yAtMinX, if !found || x > maxX then y else yAtMaxX,
                    if !found || y < minY then x else xAtMinY, if !found || y > maxY then x else xAtMaxY)
  {
    WitnessedStep(pixels, width, height, y, x, found, minX, minY, maxX, maxY,
                  yAtMinX, yAtMaxX, xAtMinY, xAtMaxY);
    CoveredStep(pixels, width, height, y, x, minX, minY, maxX, maxY,
                if x < minX then x else minX, if y < minY then y else minY,
                if x > maxX then x else maxX, if y > maxY then y else maxY);
  }

  /** Visiting a pixel that is not drawn changes nothing but the position. */
  lemma ScanPlain(pixels: array<byte>, width: nat, height: nat, y: int, x: int, found: bool,
                  minX: int, minY: int, maxX: int, maxY: int,
                  yAtMinX: int, yAtMaxX: int, xAtMinY: int, xAtMaxY: int)
    requires pixels.Length == 4 * width * height
    requires 0 <= x < width && 0 <= y < height && !Inked(pixels, width, height, x, y)
    requires Scanned(pixels, width, height, y, x, found, minX, minY, maxX, maxY,
                     yAtMinX, yAtMaxX, xAtMinY, xAtMaxY)
    ensures Scanned(pixels, width, height, y, x + 1, found, minX, minY, maxX, maxY,
                    yAtMinX, yAtMaxX, xAtMinY, xAtMaxY)
  {
    CoveredStep(pixels, width, height, y, x, minX, minY, maxX, maxY, minX, minY, maxX, maxY);
    if !found {
      BlankStep(pixels, width, height, y, x);
    }
  }

  /** The end of row `y` is the start of row `y + 1`. */
  lemma RowEnd(pixels: array<byte>, width: nat, height: nat, y: int, found: bool,
               minX: int, minY: int, maxX: int, maxY: int,
               yAtMinX: int, yAtMaxX: int, xAtMinY: int, xAtMaxY: int)
    requires pixels.Length == 4 * width * height
    requires Scanned(pixels, width, height, y, width, found, minX, minY, maxX, maxY,
                     yAtMinX, yAtMaxX, xAtMinY, xAtMaxY)
    ensures Scanned(pixels, width, height, y + 1, 0, found, minX, minY, maxX, maxY,
                    yAtMinX, yAtMaxX, xAtMinY, xAtMaxY)
  {
    assert forall px, py :: 0 <= px < width && Before(px, py, 0, y + 1) ==> Before(px, py, width, y);
  }

  /** One row of the scan: visit the pixels of row `y` left to right and
      widen the box to each one whose alpha is not zero. */
  method ScanRow(pixels: array<byte>, width: nat, height: nat, y: nat,
                 minX0: int, minY0: int, maxX0: int, maxY0: int, ghost found0: bool,
                 ghost yAtMinX0: int, ghost yAtMaxX0: int, ghost xAtMinY0: int, ghost xAtMaxY0: int)
    returns (minX: int, minY: int, maxX: int, maxY: int, ghost found: bool,
             ghost yAtMinX: int, ghost yAtMaxX: int, ghost xAtMinY: int, ghost xAtMaxY: int)
    requires pixels.Length == 4 * width * height && y < height
    requires Scanned(pixels, width, height, y, 0, found0, minX0, minY0, maxX0, maxY0,
                     yAtMinX0, yAtMaxX0, xAtMinY0, xAtMaxY0)
    ensures Scanned(pixels, width, height, y + 1, 0, found, minX, minY, maxX, maxY,
                    yAtMinX, yAtMaxX, xAtMinY, xAtMaxY)
  {
    minX, minY, maxX, maxY, found := minX0, minY0, maxX0, maxY0, found0;
    yAtMinX, yAtMaxX, xAtMinY, xAtMaxY := yAtMinX0, yAtMaxX0, xAtMinY0, xAtMaxY0;
    var x := 0;
    while x < width
      invariant 0 <= x <= width
      invariant Scanned(pixels, width, height, y, x, found, minX, minY, maxX, maxY,
                        yAtMinX, yAtMaxX, xAtMinY, xAtMaxY)
    {
      PixelIndexInBounds(width, height, x, y);
      if pixels[AlphaIndex(width, x, y)] > 0 {
        ScanInked(pixels, width, height, y, x, found, minX, minY, maxX, maxY,
                  yAtMinX, yAtMaxX, xAtMinY, xAtMaxY);
        minX, minY, maxX, maxY, found, yAtMinX, yAtMaxX, xAtMinY, xAtMaxY :=
          if x < minX then x else minX, if y < minY then y else minY,
          if x > maxX then x else maxX, if y > maxY then y else maxY,
          true,
          if !found || x < minX then y else yAtMinX, if !found || x > maxX then y else yAtMaxX,
          if !found || y < minY then x else xAtMinY, if !found || y > maxY then x else xAtMaxY;
      } else {
        ScanPlain(pixels, width, height, y, x, found, minX, minY, maxX, maxY,
                  yAtMinX, yAtMaxX, xAtMinY, xAtMaxY);
      }
      x := x + 1;
    }
    RowEnd(pixels, width, height, y, found, minX, minY, maxX, maxY, yAtMinX, yAtMaxX, xAtMinY, xAtMaxY);
  }

  /** The scan in `runRoute`: visit every pixel row by row and widen the box
      to each pixel whose alpha is not zero. */
  method ScanInk(pixels: array<byte>, width: nat, height: nat) returns (minX: int, minY: int, maxX: int, maxY: int)
    requires pixels.Length == 4 * width * height
    ensures InkBox(pixels, width, height, minX, minY, maxX, maxY)
  {
    minX, minY, maxX, maxY := width, height, 0, 0;
    ghost var found := false;
    ghost var yAtMinX, yAtMaxX, xAtMinY, xAtMaxY := 0, 0, 0, 0;
    var y := 0;
    while y < height
      invariant 0 <= y <= height
      invariant Scanned(pixels, width, height, y, 0, found, minX, minY, maxX, maxY,
                        yAtMinX, yAtMaxX, xAtMinY, xAtMaxY)
    {
      minX, minY, maxX, maxY, found, yAtMinX, yAtMaxX, xAtMinY, xAtMaxY :=
        ScanRow(pixels, width, height, y, minX, minY, maxX, maxY, found, yAtMinX, yAtMaxX, xAtMinY, xAtMaxY);
      y := y + 1;
    }
  }

  /** On a blank canvas the results are placed at the middle of the canvas. */
  lemma BlankCanvasCenter(pixels: array<byte>, width: nat, height: nat, minX: int, minY: int, maxX: int, maxY: int)
    requires pixels.Length == 4 * width * height
    requires InkBox(pixels, width, height, minX, minY, maxX, maxY)
    requires !AnyInk(pixels, width, height)
    ensures 2.0 * Center(minX, maxX) == width as real && 2.0 * Center(minY, maxY) == height as real
  {
  }

  // ---------------------------------------------------------------------------
  // The component's state
  // ---------------------------------------------------------------------------

  /** The state `Home` keeps across runs. React applies each setter on the
      next render; since no code here reads a field after setting it in the
      same handler, each method assigns the fields directly. */
  class Home {
    var dictOfVars: map<string, string>
    var latexExpressions: seq<string>
    var result: Option<GeneratedResult>
    var reset: bool
    var latexPosition: Position

    /** The initial state of the component. */
    constructor ()
      ensures dictOfVars == map[] && latexExpressions == [] && result == None && !reset
      ensures latexPosition == Position(10.0, 200.0)
    {
      dictOfVars := map[];
      latexExpressions := [];
      result := None;
      reset := false;
      latexPosition := Position(10.0, 200.0);
    }

    /** The Reset button raises the reset flag. */
    method RequestReset()
      modifies this`reset
      ensures reset
    {
      reset := true;
    }

    /** The effect that runs when the reset flag changes: when it is raised,
        the rendered list, the current result and the variable map are
        cleared and the flag is lowered; otherwise nothing changes. */
    method ResetEffect()
      modifies this
      ensures old(reset) ==> latexExpressions == [] && result == None && dictOfVars == map[] && !reset
      ensures old(reset) ==> latexPosition == old(latexPosition)
      ensures !old(reset) ==> unchanged(this)
    {
      if reset {
        latexExpressions := [];
        result := None;
        dictOfVars := map[];
        reset := false;
      }
    }

    /** `renderLatexToCanvas`: appends the LaTeX string of one result after
        the ones already shown, which stay as they were. */
    method RenderLatexToCanvas(expression: string, answer: string)
      modifies this`latexExpressions
      ensures latexExpressions == old(latexExpressions) + [Latex(expression, answer)]
      ensures |latexExpressions| == |old(latexExpressions)| + 1
    {
      latexExpressions := latexExpressions + [Latex(expression, answer)];
    }

    /** The assignment loop of `runRoute`: every assignment entry sets the map
        to the one captured before the loop plus that entry's binding. */
    method ApplyAssignments(batch: seq<Response>)
      modifies this`dictOfVars
      ensures dictOfVars == MergeAsWritten(old(dictOfVars), batch)
    {
      var captured := dictOfVars;
      var i := 0;
      while i < |batch|
        invariant 0 <= i <= |batch|
        invariant dictOfVars == MergeAsWritten(captured, batch[..i])
      {
        assert batch[..i + 1][..i] == batch[..i];
        if batch[i].assign {
          dictOfVars := captured[batch[i].expr := batch[i].result];
        }
        i := i + 1;
      }
      assert batch[..|batch|] == batch;
    }

    /** What `runRoute` does with the server's answers: update the variable
        map, then place the results at the middle of the drawing's bounding
        box. Reading the pixels of a canvas with no width or no height throws,
        so on such a canvas the run stops after the map update: no box is
        computed and the results stay where they were. */
    method RunRoute(batch: seq<Response>, pixels: array<byte>, width: nat, height: nat)
      returns (bounds: Option<Bounds>)
      requires pixels.Length == 4 * width * height
      modifies this`dictOfVars, this`latexPosition
      ensures dictOfVars == MergeAsWritten(old(dictOfVars), batch)
      ensures bounds.Some? <==> width > 0 && height > 0
      ensures bounds.Some? ==>
                && InkBox(pixels, width, height, bounds.value.minX, bounds.value.minY, bounds.value.maxX, bounds.value.maxY)
                && latexPosition == Position(Center(bounds.value.minX, bounds.value.maxX), Center(bounds.value.minY, bounds.value.maxY))
      ensures bounds.None? ==> latexPosition == old(latexPosition)
    {
      ApplyAssignments(batch);
      if width == 0 || height == 0 {
        return None;
      }
      var minX, minY, maxX, maxY := ScanInk(pixels, width, height);
      latexPosition := Position(Center(minX, maxX), Center(minY, maxY));
      bounds := Some(Bounds(minX, minY, maxX, maxY));
    }
  }
}

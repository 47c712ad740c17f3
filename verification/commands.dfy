/** Path commands (SVG 1.1 path data, section 8.3) and the per-command work
    that `for_each_command` in src/main.rs does before handing a command to
    its callback: classifying it, choosing its point-group size and decoding
    its flat parameter list into (x, y) pairs. */
module Commands {
  import opened Geometry

  /** Absolute (upper-case letter) or relative (lower-case letter) coordinates. */
  datatype Position = Absolute | Relative

  /** An already-parsed path command; `params` is the flat list of numbers
      that followed the command letter. */
  datatype Command =
    | Move(position: Position, params: seq<real>)
    | Line(position: Position, params: seq<real>)
    | HorizontalLine(position: Position, params: seq<real>)
    | VerticalLine(position: Position, params: seq<real>)
    | QuadraticCurve(position: Position, params: seq<real>)
    | SmoothQuadraticCurve(position: Position, params: seq<real>)
    | CubicCurve(position: Position, params: seq<real>)
    | SmoothCubicCurve(position: Position, params: seq<real>)
    | EllipticalArc(position: Position, params: seq<real>)
    | Close

  /** The commands the traversal hands to its callback (M, L, Q, T, C, S);
      Z, H, V and A are passed over untouched. */
  predicate HasPoints(c: Command) {
    c.Move? || c.Line? || c.QuadraticCurve? || c.SmoothQuadraticCurve? ||
    c.CubicCurve? || c.SmoothCubicCurve?
  }

  /** How many (x, y) pairs make up one segment of the command: the control
      points come first and the segment's end point last. For the commands
      that carry points this is the number of coordinate pairs SVG 1.1
      (section 8.3) gives one segment: three for C, two for Q and S, one for
      M, L and T. */
  function PointPairSize(c: Command): (n: nat)
    ensures 1 <= n <= 3
    ensures n == 3 <==> c.CubicCurve?
    ensures n == 2 <==> c.QuadraticCurve? || c.SmoothCubicCurve?
  {
    match c
    case QuadraticCurve(_, _) => 2
    case CubicCurve(_, _) => 3
    case SmoothCubicCurve(_, _) => 2
    case _ => 1
  }

  /** Adjacent values paired up, an odd trailing value dropped. */
  function Pairs(params: seq<real>): (pts: seq<Point>)
    ensures |pts| == |params| / 2
    ensures forall i | 0 <= i < |pts| :: pts[i] == Point(params[2 * i], params[2 * i + 1])
    decreases |params|
  {
    if |params| < 2 then []
    else [Point(params[0], params[1])] + Pairs(params[2..])
  }

  /** The flat parameter list of a list of points, x before y. */
  function Flatten(pts: seq<Point>): (params: seq<real>)
    ensures |params| == 2 * |pts|
    ensures forall i | 0 <= i < |pts| :: params[2 * i] == pts[i].x && params[2 * i + 1] == pts[i].y
  {
    if pts == [] then []
    else [pts[0].x, pts[0].y] + Flatten(pts[1..])
  }

  /** Decoding what was flattened gives the points back. */
  lemma PairsOfFlatten(pts: seq<Point>)
    ensures Pairs(Flatten(pts)) == pts
  {
    var params := Flatten(pts);
    assert |params| / 2 == |pts|;
    forall i | 0 <= i < |pts| ensures Pairs(params)[i] == pts[i] {
    }
  }

  /** Flattening decoded points gives back the parameters without their
      odd trailing value. */
  lemma {:induction false} FlattenOfPairs(params: seq<real>)
    ensures Flatten(Pairs(params)) == params[..2 * (|params| / 2)]
    decreases |params|
  {
    if |params| >= 2 {
      var rest := params[2..];
      FlattenOfPairs(rest);
      assert 2 * (|params| / 2) == 2 + 2 * (|rest| / 2);
      calc {
        Flatten(Pairs(params));
        [params[0], params[1]] + Flatten(Pairs(rest));
        [params[0], params[1]] + rest[..2 * (|rest| / 2)];
        params[..2 * (|params| / 2)];
      }
    }
  }

  /** A trailing value without a partner changes nothing. */
  lemma PairsIgnoresOddTrailing(params: seq<real>, v: real)
    requires |params| % 2 == 0
    ensures Pairs(params + [v]) == Pairs(params)
  {
    var a, b := Pairs(params + [v]), Pairs(params);
    assert |a| == |b|;
    forall i | 0 <= i < |a| ensures a[i] == b[i] {
      assert (params + [v])[2 * i] == params[2 * i];
      assert (params + [v])[2 * i + 1] == params[2 * i + 1];
    }
  }

  /** Both commands are of the same kind (the same command letter, up to case). */
  predicate SameKind(a: Command, b: Command) {
    a.Move? == b.Move? && a.Line? == b.Line? &&
    a.HorizontalLine? == b.HorizontalLine? && a.VerticalLine? == b.VerticalLine? &&
    a.QuadraticCurve? == b.QuadraticCurve? && a.SmoothQuadraticCurve? == b.SmoothQuadraticCurve? &&
    a.CubicCurve? == b.CubicCurve? && a.SmoothCubicCurve? == b.SmoothCubicCurve? &&
    a.EllipticalArc? == b.EllipticalArc? && a.Close? == b.Close?
  }

  /** The command with its parameters replaced, as the traversal stores
      back what its callback left in `*params`. */
  function WithParams(c: Command, ps: seq<real>): (r: Command)
    requires HasPoints(c)
    ensures SameKind(r, c) && r.position == c.position && r.params == ps
  {
    match c
    case Move(position, _) => Move(position, ps)
    case Line(position, _) => Line(position, ps)
    case QuadraticCurve(position, _) => QuadraticCurve(position, ps)
    case SmoothQuadraticCurve(position, _) => SmoothQuadraticCurve(position, ps)
    case CubicCurve(position, _) => CubicCurve(position, ps)
    case SmoothCubicCurve(position, _) => SmoothCubicCurve(position, ps)
  }

  /** The command with an odd trailing parameter dropped. */
  function Truncated(c: Command): (t: Command)
    ensures SameKind(t, c)
    ensures HasPoints(c) ==> t.position == c.position && t.params == Flatten(Pairs(c.params))
    ensures !HasPoints(c) ==> t == c
  {
    if HasPoints(c) then
      FlattenOfPairs(c.params);
      WithParams(c, c.params[..2 * (|c.params| / 2)])
    else c
  }

  /** The decoding loop of `for_each_command`: take a value, then its
      partner if there is one. */
  method DecodePoints(params: seq<real>) returns (points: seq<Point>)
    ensures points == Pairs(params)
  {
    points := [];
    var k := 0;
    while k < |params|
      invariant 0 <= k <= |params|
      invariant k % 2 == 0 || k == |params|
      invariant |points| == k / 2
      invariant forall i | 0 <= i < |points| :: points[i] == Point(params[2 * i], params[2 * i + 1])
    {
      var x := params[k];
      k := k + 1;
      if k < |params| {
        var y := params[k];
        k := k + 1;
        points := points + [Point(x, y)];
      }
    }
  }
}

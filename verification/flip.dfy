/** `flip_and_align_path` of src/main.rs: the in-place rewrite that moves
    every glyph into the reference box's frame, flipping the y axis. */
module Transform {
  import opened Geometry
  import opened Commands

  /** Centres a glyph of advance `width` inside the reference box and shifts
      it into the box's own frame. */
  function Offset(r: Box, width: real): real {
    (r.Width() - width) / 2.0 + r.min.x
  }

  /** One point of a command. An absolute point ends up shifted right by
      half the spare width and mirrored about the box's top edge; a relative
      delta, which no translation affects, only has its y negated. */
  function FlipPoint(position: Position, p: Point, r: Box, width: real): (q: Point)
    ensures position == Absolute ==> q == Point(p.x + (r.Width() - width) / 2.0, r.max.y - p.y)
    ensures position == Relative ==> q == Point(p.x, -p.y)
  {
    match position
    case Absolute => Point(Offset(r, width) + p.x - r.min.x, r.max.y - p.y)
    case Relative => Point(p.x, -p.y)
  }

  function FlipPoints(position: Position, pts: seq<Point>, r: Box, width: real): seq<Point> {
    seq(|pts|, i requires 0 <= i < |pts| => FlipPoint(position, pts[i], r, width))
  }

  /** What the callback of the rewrite leaves in one command. */
  function FlipCommand(c: Command, r: Box, width: real): (f: Command)
    ensures SameKind(f, c)
    ensures HasPoints(c) ==> f.position == c.position
  {
    if HasPoints(c) then WithParams(c, Flatten(FlipPoints(c.position, Pairs(c.params), r, width)))
    else c
  }

  /** What the rewrite leaves in a whole path. */
  function FlipPath(cmds: seq<Command>, r: Box, width: real): seq<Command> {
    seq(|cmds|, i requires 0 <= i < |cmds| => FlipCommand(cmds[i], r, width))
  }

  lemma {:induction false} FlattenSnoc(pts: seq<Point>, p: Point)
    ensures Flatten(pts + [p]) == Flatten(pts) + [p.x, p.y]
  {
    if pts != [] {
      assert (pts + [p])[1..] == pts[1..] + [p];
      FlattenSnoc(pts[1..], p);
    }
  }

  /** The callback of the rewrite for one command: the new flat parameter
      list, built pair by pair from the decoded points. */
  method FlippedParams(position: Position, points: seq<Point>, rect: Rect, offset: real, ghost width: real)
    returns (paramsNew: seq<real>)
    requires rect.Valid() && !rect.empty && offset == Offset(rect.Bounds(), width)
    ensures paramsNew == Flatten(FlipPoints(position, points, rect.Bounds(), width))
  {
    ghost var box := rect.Bounds();
    paramsNew := [];
    for j := 0 to |points|
      invariant paramsNew == Flatten(FlipPoints(position, points[..j], box, width))
    {
      var point := points[j];
      match position {
        case Absolute =>
          paramsNew := paramsNew + [offset + point.x - rect.min.x, rect.max.y - point.y];
        case Relative =>
          paramsNew := paramsNew + [point.x, -point.y];
      }
      assert FlipPoints(position, points[..j + 1], box, width)
          == FlipPoints(position, points[..j], box, width) + [FlipPoint(position, point, box, width)];
      FlattenSnoc(FlipPoints(position, points[..j], box, width), FlipPoint(position, point, box, width));
    }
    assert points[..|points|] == points;
  }

  /** The rewrite: the traversal over every command, calling the callback
      above on the point-bearing ones and storing its result back. */
  method FlipAndAlignPath(commands: array<Command>, rect: Rect, width: real)
    requires rect.Valid() && !rect.empty
    modifies commands
    ensures commands[..] == FlipPath(old(commands[..]), rect.Bounds(), width)
  {
    ghost var box := rect.Bounds();
    var offset := (rect.Width() - width) / 2.0 + rect.min.x;
    for k := 0 to commands.Length
      invariant forall j | 0 <= j < k :: commands[j] == FlipCommand(old(commands[j]), box, width)
      invariant forall j | k <= j < commands.Length :: commands[j] == old(commands[j])
    {
      var c := commands[k];
      if HasPoints(c) {
        commands[k] := FlippedCommand(c, rect, offset, width);
      }
    }
  }

  /** The callback applied to one point-bearing command: decode its points,
      rewrite them and store the new list as its parameters. */
  method FlippedCommand(c: Command, rect: Rect, offset: real, ghost width: real) returns (f: Command)
    requires HasPoints(c)
    requires rect.Valid() && !rect.empty && offset == Offset(rect.Bounds(), width)
    ensures f == FlipCommand(c, rect.Bounds(), width)
  {
    var points := DecodePoints(c.params);
    var paramsNew := FlippedParams(c.position, points, rect, offset, width);
    f := WithParams(c, paramsNew);
  }

  /** The decoded points of a rewritten command, point by point: absolute
      (x, y) becomes (x + (W - w) / 2, max.y - y), relative (dx, dy) becomes
      (dx, -dy), where W is the reference width and w the glyph's advance. */
  lemma FlipCommandPoints(c: Command, r: Box, width: real)
    requires HasPoints(c)
    ensures var before, after := Pairs(c.params), Pairs(FlipCommand(c, r, width).params);
      |after| == |before| &&
      (c.position == Absolute ==> forall i | 0 <= i < |before| ::
         after[i] == Point(before[i].x + (r.Width() - width) / 2.0, r.max.y - before[i].y)) &&
      (c.position == Relative ==> forall i | 0 <= i < |before| ::
         after[i] == Point(before[i].x, -before[i].y))
  {
    PairsOfFlatten(FlipPoints(c.position, Pairs(c.params), r, width));
  }

  /** Only the parameters change: kind and addressing mode stay, the new list
      holds two numbers per decoded point, and Z, H, V and A are untouched. */
  lemma FlipKeepsShape(c: Command, r: Box, width: real)
    ensures SameKind(FlipCommand(c, r, width), c)
    ensures HasPoints(c) ==> FlipCommand(c, r, width).position == c.position
    ensures HasPoints(c) ==> |FlipCommand(c, r, width).params| == 2 * (|c.params| / 2)
    ensures !HasPoints(c) ==> FlipCommand(c, r, width) == c
  {
  }

  /** Flipping twice with the same box and width gives every y back; for a
      relative command, or when the glyph is exactly as wide as the box, it
      gives back every point. */
  lemma FlipTwiceRestoresY(c: Command, r: Box, width: real)
    requires HasPoints(c)
    ensures var before, after := Pairs(c.params), Pairs(FlipCommand(FlipCommand(c, r, width), r, width).params);
      |after| == |before| &&
      (forall i | 0 <= i < |before| :: after[i].y == before[i].y) &&
      (c.position == Relative || r.Width() == width ==> after == before)
  {
    var once := FlipCommand(c, r, width);
    var before, after := Pairs(c.params), Pairs(FlipCommand(once, r, width).params);
    PairsOfFlip(c, r, width);
    PairsOfFlip(once, r, width);
    forall i | 0 <= i < |before|
      ensures after[i].y == before[i].y
      ensures c.position == Relative || r.Width() == width ==> after[i] == before[i]
    {
      FlipPointTwice(c.position, before[i], r, width);
    }
  }

  /** The decoded points of a rewritten command are the rewritten points. */
  lemma PairsOfFlip(c: Command, r: Box, width: real)
    requires HasPoints(c)
    ensures Pairs(FlipCommand(c, r, width).params) == FlipPoints(c.position, Pairs(c.params), r, width)
  {
    PairsOfFlatten(FlipPoints(c.position, Pairs(c.params), r, width));
  }

  /** One point rewritten twice keeps its y; it is restored entirely when it
      is relative or when the glyph is as wide as the box. */
  lemma FlipPointTwice(position: Position, p: Point, r: Box, width: real)
    ensures FlipPoint(position, FlipPoint(position, p, r, width), r, width).y == p.y
    ensures position == Relative || r.Width() == width ==>
      FlipPoint(position, FlipPoint(position, p, r, width), r, width) == p
  {
  }

  /** When the glyph is exactly as wide as the reference box the rewrite is
      an involution, up to an odd trailing parameter. */
  lemma FlipInvolution(c: Command, r: Box, width: real)
    requires r.Width() == width
    ensures FlipCommand(FlipCommand(c, r, width), r, width) == Truncated(c)
  {
    if HasPoints(c) {
      var once := FlipCommand(c, r, width);
      var twice := FlipCommand(once, r, width);
      FlipTwiceRestoresY(c, r, width);
      var pts := FlipPoints(once.position, Pairs(once.params), r, width);
      assert twice.params == Flatten(pts);
      PairsOfFlatten(pts);
      assert twice.params == Flatten(Pairs(c.params));
    }
  }

  /** The result fits the view box (0, 0, W, H) the program writes: an
      absolute point inside the reference box lands at a height in [0, H],
      and the glyph's advance [0, w] lands centred in [0, W], with equal
      margins left and right. */
  lemma FlipFitsViewBox(p: Point, r: Box, width: real)
    requires r.min.y <= p.y <= r.max.y
    ensures 0.0 <= FlipPoint(Absolute, p, r, width).y <= r.Height()
    ensures FlipPoint(Absolute, Point(0.0, p.y), r, width).x
         == r.Width() - FlipPoint(Absolute, Point(width, p.y), r, width).x
  {
  }
}

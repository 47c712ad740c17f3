/** `get_rect` of src/main.rs: the read-only pass that resolves each sampled
    point against a cursor and grows a Rect around the results. */
module BoundingBox {
  import opened Wrappers
  import opened Geometry
  import opened Commands

  /** One point the pass looks at, with the addressing mode of its command. */
  datatype Sample = Sample(position: Position, point: Point)

  /** The points at the indices i, i + size, i + 2 * size, ... of `points`:
      the indices the callback's stepping loop visits from i on. */
  function SampledFrom(position: Position, points: seq<Point>, size: nat, i: nat): seq<Sample>
    requires size >= 1
    decreases |points| - i
  {
    if i >= |points| then []
    else [Sample(position, points[i])] + SampledFrom(position, points, size, i + size)
  }

  /** The last point of each complete group of `size` points, i.e. the points
      at the indices i with i % size == size - 1; control points and an
      incomplete trailing group are skipped. */
  function Sampled(position: Position, points: seq<Point>, size: nat): seq<Sample>
    requires size >= 1
  {
    SampledFrom(position, points, size, size - 1)
  }

  /** The stepped loop samples one point per complete group, the group's
      last: sample m is point m * size + size - 1. */
  lemma SampledGroupEnds(position: Position, points: seq<Point>, size: nat)
    requires size >= 1
    ensures var r := Sampled(position, points, size);
      |r| * size <= |points| < |r| * size + size &&
      forall m | 0 <= m < |r| ::
        m * size + size - 1 < |points| && r[m] == Sample(position, points[m * size + size - 1])
  {
    SampledFromIndices(position, points, size, size - 1);
    var r := SampledFrom(position, points, size, size - 1);
    MulSucc(|r|, size);
    if r != [] {
      MulSucc(|r| - 1, size);
    }
  }

  lemma MulSucc(a: int, b: int)
    ensures (a + 1) * b == a * b + b
  {
  }

  /** Sample m of SampledFrom(.., i) is the point at index i + m * size, and
      the samples stop at the first such index past the end. */
  lemma {:induction false} SampledFromIndices(position: Position, points: seq<Point>, size: nat, i: nat)
    requires size >= 1
    ensures var r := SampledFrom(position, points, size, i);
      i + |r| * size >= |points| &&
      (r != [] ==> i + (|r| - 1) * size < |points|) &&
      forall m | 0 <= m < |r| :: i + m * size < |points| && r[m] == Sample(position, points[i + m * size])
    decreases |points| - i
  {
    var r := SampledFrom(position, points, size, i);
    if i < |points| {
      var rest := SampledFrom(position, points, size, i + size);
      SampledFromIndices(position, points, size, i + size);
      MulSucc(|rest|, size);
      if rest != [] {
        MulSucc(|rest| - 1, size);
      }
      forall m | 0 <= m < |r|
        ensures i + m * size < |points| && r[m] == Sample(position, points[i + m * size])
      {
        if m > 0 {
          MulSucc(m - 1, size);
          assert r[m] == rest[m - 1];
        }
      }
    }
  }

  /** What the pass samples from one command: nothing from Z, H, V and A. */
  function CommandSamples(c: Command): seq<Sample> {
    if HasPoints(c) then Sampled(c.position, Pairs(c.params), PointPairSize(c)) else []
  }

  /** Everything the pass samples, command after command. */
  function Samples(cmds: seq<Command>): seq<Sample> {
    if cmds == [] then []
    else Samples(cmds[..|cmds| - 1]) + CommandSamples(cmds[|cmds| - 1])
  }

  lemma {:induction false} SamplesAppend(a: seq<Command>, b: seq<Command>)
    ensures Samples(a + b) == Samples(a) + Samples(b)
    decreases |b|
  {
    if b == [] {
      assert a + b == a;
    } else {
      var init, last := b[..|b| - 1], b[|b| - 1];
      calc {
        Samples(a + b);
        { assert (a + b)[..|a + b| - 1] == a + init && (a + b)[|a + b| - 1] == last; }
        Samples(a + init) + CommandSamples(last);
        { SamplesAppend(a, init); }
        Samples(a) + Samples(init) + CommandSamples(last);
      }
    }
  }

  /** Z, H, V and A contribute no sample: inserting one anywhere neither
      moves nor resets the cursor of the pass. */
  lemma SkippedCommandInvisible(a: seq<Command>, c: Command, b: seq<Command>)
    requires !HasPoints(c)
    ensures Samples(a + [c] + b) == Samples(a + b)
  {
    calc {
      Samples(a + [c] + b);
      { SamplesAppend(a + [c], b); }
      Samples(a + [c]) + Samples(b);
      { SamplesLast(a, c); }
      Samples(a) + CommandSamples(c) + Samples(b);
      { assert CommandSamples(c) == []; assert Samples(a) + [] == Samples(a); }
      Samples(a) + Samples(b);
      { SamplesAppend(a, b); }
      Samples(a + b);
    }
  }

  /** The state of the pass: either it has panicked, or it has a cursor
      (none before the first absolute point) and the resolved points so far. */
  datatype Trace = Panicked | Traced(cursor: Option<Point>, resolved: seq<Point>)

  /** The pass's state at the start of each glyph. */
  const Start: Trace := Traced(None, [])

  /** One sample: an absolute point becomes the cursor; a relative one moves
      the cursor by its delta, and panics when there is no cursor yet. */
  function Step(t: Trace, s: Sample): Trace {
    match t
    case Panicked => Panicked
    case Traced(cursor, resolved) =>
      match s.position
      case Absolute => Traced(Some(s.point), resolved + [s.point])
      case Relative =>
        if cursor.None? then Panicked
        else
          var q := Add(cursor.value, s.point);
          Traced(Some(q), resolved + [q])
  }

  function Run(samples: seq<Sample>, t: Trace): Trace {
    if samples == [] then t
    else Step(Run(samples[..|samples| - 1], t), samples[|samples| - 1])
  }

  lemma {:induction false} RunAppend(s1: seq<Sample>, s2: seq<Sample>, t: Trace)
    ensures Run(s1 + s2, t) == Run(s2, Run(s1, t))
    decreases |s2|
  {
    if s2 == [] {
      assert s1 + s2 == s1;
    } else {
      var init := s2[..|s2| - 1];
      assert (s1 + s2)[..|s1 + s2| - 1] == s1 + init;
      RunAppend(s1, init, t);
    }
  }

  /** A panic is final. */
  lemma {:induction false} RunPanicked(s: seq<Sample>)
    ensures Run(s, Panicked) == Panicked
    decreases |s|
  {
    if s != [] {
      RunPanicked(s[..|s| - 1]);
    }
  }

  lemma RunLast(a: seq<Sample>, x: Sample, t: Trace)
    ensures Run(a + [x], t) == Step(Run(a, t), x)
  {
    assert (a + [x])[..|a|] == a;
  }

  lemma RunCons(x: Sample, rest: seq<Sample>, t: Trace)
    ensures Run([x] + rest, t) == Run(rest, Step(t, x))
  {
    RunAppend([x], rest, t);
    RunLast([], x, t);
    assert [] + [x] == [x];
  }

  /** One resolved point per sample, and after a sample the cursor is the
      point it resolved to. */
  lemma {:induction false} RunShape(s: seq<Sample>, cursor: Option<Point>)
    ensures Run(s, Traced(cursor, [])).Traced? ==>
      var t := Run(s, Traced(cursor, []));
      |t.resolved| == |s| &&
      (s == [] ==> t.cursor == cursor) &&
      (s != [] ==> t.cursor == Some(t.resolved[|s| - 1]))
    decreases |s|
  {
    if s != [] {
      RunShape(s[..|s| - 1], cursor);
    }
  }

  /** The pass panics exactly when the first sampled point of the glyph is
      relative: once a cursor exists it is never lost. */
  lemma {:induction false} PanicsIffRelativeFirst(s: seq<Sample>)
    ensures Run(s, Start).Panicked? <==> s != [] && s[0].position == Relative
    decreases |s|
  {
    if s != [] {
      var init := s[..|s| - 1];
      PanicsIffRelativeFirst(init);
      RunShape(init, None);
      if init != [] {
        assert init[0] == s[0];
      }
    }
  }

  /** How every sample resolves: an absolute point to itself, a relative
      point to the previously resolved point (the starting cursor for the
      first sample) moved by its delta. */
  lemma {:induction false} RunResolves(s: seq<Sample>, cursor: Option<Point>)
    requires Run(s, Traced(cursor, [])).Traced?
    ensures var r := Run(s, Traced(cursor, [])).resolved;
      |r| == |s| &&
      (forall i | 0 <= i < |s| && s[i].position == Absolute :: r[i] == s[i].point) &&
      (forall i | 0 < i < |s| && s[i].position == Relative :: r[i] == Add(r[i - 1], s[i].point)) &&
      (s != [] && s[0].position == Relative ==> cursor.Some? && r[0] == Add(cursor.value, s[0].point))
    decreases |s|
  {
    RunShape(s, cursor);
    if s != [] {
      var init := s[..|s| - 1];
      RunResolves(init, cursor);
      RunShape(init, cursor);
    }
  }

  /** For a glyph drawn with absolute commands only, the resolved points are
      exactly the sampled ones. */
  lemma AllAbsoluteResolvesToSampled(s: seq<Sample>)
    requires forall i | 0 <= i < |s| :: s[i].position == Absolute
    ensures Run(s, Start).Traced?
    ensures Run(s, Start).resolved == seq(|s|, i requires 0 <= i < |s| => s[i].point)
  {
    PanicsIffRelativeFirst(s);
    RunResolves(s, None);
  }

  /** The callback that `get_rect` hands to the traversal, for one command:
      resolves the last point of each group against the cursor `pos` and
      extends `rect` with it. Returns the new cursor, or the panic. */
  method ExtendWithGroups(rect: Rect, pos: Option<Point>, position: Position, points: seq<Point>, size: nat)
    returns (res: Result<Option<Point>, Failure>)
    requires rect.Valid() && size >= 1
    modifies rect
    ensures rect.Valid()
    ensures var t := Run(Sampled(position, points, size), Traced(pos, old(rect.points)));
      (res.Err? <==> t.Panicked?) &&
      (res.Err? ==> res.error == RelativeBeforeAbsolute) &&
      (res.Ok? ==> t == Traced(res.value, rect.points))
  {
    ghost var group := Sampled(position, points, size);
    ghost var target := Run(group, Traced(pos, rect.points));
    var cursor := pos;
    var i := size - 1;
    while i < |points|
      invariant rect.Valid()
      invariant target == Run(SampledFrom(position, points, size, i), Traced(cursor, rect.points))
      decreases |points| - i
    {
      var point := points[i];
      RunCons(Sample(position, point), SampledFrom(position, points, size, i + size), Traced(cursor, rect.points));
      var pointAbs: Point;
      match position {
        case Absolute =>
          cursor := Some(point);
          pointAbs := point;
        case Relative =>
          if cursor.None? {
            RunPanicked(SampledFrom(position, points, size, i + size));
            return Err(RelativeBeforeAbsolute);
          }
          cursor := Some(Add(cursor.value, point));
          pointAbs := cursor.value;
      }
      rect.Extend(pointAbs);
      i := i + size;
    }
    res := Ok(cursor);
  }

  /** The bounding box of a glyph: the traversal over every command, calling
      the callback above on the point-bearing ones. The commands are only read. */
  method GetRect(commands: array<Command>) returns (res: Result<Rect, Failure>)
    ensures var t := Run(Samples(commands[..]), Start);
      (res.Err? <==> t.Panicked?) &&
      (res.Err? ==> res.error == RelativeBeforeAbsolute) &&
      (res.Ok? ==> fresh(res.value) && res.value.Valid() && res.value.points == t.resolved)
  {
    var rect := new Rect();
    var pos: Option<Point> := None;
    for k := 0 to commands.Length
      invariant fresh(rect) && rect.Valid()
      invariant Run(Samples(commands[..k]), Start) == Traced(pos, rect.points)
    {
      var c := commands[k];
      assert commands[..k + 1][..k] == commands[..k];
      assert Samples(commands[..k + 1]) == Samples(commands[..k]) + CommandSamples(c);
      RunAppend(Samples(commands[..k]), CommandSamples(c), Start);
      if HasPoints(c) {
        var size := PointPairSize(c);
        var points := DecodePoints(c.params);
        var r := ExtendWithGroups(rect, pos, c.position, points, size);
        if r.Err? {
          PanicSpreads(commands[..], k);
          return Err(r.error);
        }
        pos := r.value;
      }
    }
    assert commands[..commands.Length] == commands[..];
    res := Ok(rect);
  }

  /** A panic within the first k + 1 commands is a panic of the whole pass. */
  lemma PanicSpreads(cmds: seq<Command>, k: nat)
    requires k < |cmds|
    requires Run(Samples(cmds[..k + 1]), Start).Panicked?
    ensures Run(Samples(cmds), Start).Panicked?
  {
    assert cmds == cmds[..k + 1] + cmds[k + 1..];
    PanicExtends(cmds[..k + 1], cmds[k + 1..]);
  }

  lemma PanicExtends(a: seq<Command>, b: seq<Command>)
    requires Run(Samples(a), Start).Panicked?
    ensures Run(Samples(a + b), Start).Panicked?
  {
    SamplesAppend(a, b);
    RunAppend(Samples(a), Samples(b), Start);
    RunPanicked(Samples(b));
  }

  /** A move to (0, 0) followed by the relative lines (5, 5) and (5, -5)
      visits (0, 0), (5, 5) and (10, 0). */
  lemma RelativeResolutionExample()
    ensures Run(Samples([Move(Absolute, [0.0, 0.0]), Line(Relative, [5.0, 5.0]), Line(Relative, [5.0, -5.0])]), Start)
         == Traced(Some(Point(10.0, 0.0)), [Point(0.0, 0.0), Point(5.0, 5.0), Point(10.0, 0.0)])
  {
    var c0, c1, c2 := Move(Absolute, [0.0, 0.0]), Line(Relative, [5.0, 5.0]), Line(Relative, [5.0, -5.0]);
    var s0, s1, s2 := Sample(Absolute, Point(0.0, 0.0)), Sample(Relative, Point(5.0, 5.0)), Sample(Relative, Point(5.0, -5.0));
    SinglePointSample(c0);
    SinglePointSample(c1);
    SinglePointSample(c2);
    SamplesLast([], c0);
    assert [] + [c0] == [c0];
    SamplesLast([c0], c1);
    assert [c0] + [c1] == [c0, c1];
    SamplesLast([c0, c1], c2);
    assert [c0, c1] + [c2] == [c0, c1, c2];
    assert Samples([c0, c1, c2]) == [s0, s1, s2];
    RunThree(s0, s1, s2);
  }

  lemma SamplesLast(a: seq<Command>, c: Command)
    ensures Samples(a + [c]) == Samples(a) + CommandSamples(c)
  {
    assert (a + [c])[..|a|] == a;
  }

  /** A path that opens with a relative `m` panics, whatever follows: the
      source does not read an opening `m` as absolute, as SVG 1.1 (section
      8.3.2) does. */
  lemma LeadingRelativeMovePanics(params: seq<real>, rest: seq<Command>)
    requires |params| >= 2
    ensures Run(Samples([Move(Relative, params)] + rest), Start).Panicked?
  {
    var c := Move(Relative, params);
    var s := Samples([c] + rest);
    SamplesAppend([c], rest);
    SamplesLast([], c);
    assert [] + [c] == [c];
    var pts := Pairs(params);
    assert |pts| >= 1;
    assert CommandSamples(c) == SampledFrom(Relative, pts, 1, 0);
    assert CommandSamples(c)[0] == Sample(Relative, pts[0]);
    assert s[0] == CommandSamples(c)[0];
    PanicsIffRelativeFirst(s);
  }

  /** A command of group size one with a single point samples that point. */
  lemma SinglePointSample(c: Command)
    requires HasPoints(c) && PointPairSize(c) == 1 && |c.params| == 2
    ensures CommandSamples(c) == [Sample(c.position, Point(c.params[0], c.params[1]))]
  {
    var p := Point(c.params[0], c.params[1]);
    assert Pairs(c.params) == [p];
    assert SampledFrom(c.position, [p], 1, 1) == [];
    assert SampledFrom(c.position, [p], 1, 0) == [Sample(c.position, p)] + [];
  }

  lemma RunThree(s0: Sample, s1: Sample, s2: Sample)
    requires s0 == Sample(Absolute, Point(0.0, 0.0))
    requires s1 == Sample(Relative, Point(5.0, 5.0))
    requires s2 == Sample(Relative, Point(5.0, -5.0))
    ensures Run([s0, s1, s2], Start) == Traced(Some(Point(10.0, 0.0)), [Point(0.0, 0.0), Point(5.0, 5.0), Point(10.0, 0.0)])
  {
    var empty: seq<Sample> := [];
    RunLast(empty, s0, Start);
    assert empty + [s0] == [s0];
    RunLast([s0], s1, Start);
    assert [s0] + [s1] == [s0, s1];
    RunLast([s0, s1], s2, Start);
    assert [s0, s1] + [s2] == [s0, s1, s2];
  }

  /** The box around the points of that example runs from (0, 0) to (10, 5). */
  lemma ExampleBounds()
    ensures BoundsOf([Point(0.0, 0.0), Point(5.0, 5.0), Point(10.0, 0.0)]) == Box(Point(0.0, 0.0), Point(10.0, 5.0))
  {
    var pts := [Point(0.0, 0.0), Point(5.0, 5.0), Point(10.0, 0.0)];
    assert pts[..2][..1] == pts[..1];
  }
}

/** The selection rules of `main`, `process_glyph` and `save` in src/main.rs:
    which glyphs are kept, which box is the reference, which files are
    written and with what. Reading the font and writing the files are left
    to the caller; glyph records arrive with their paths already parsed. */
module Pipeline {
  import opened Wrappers
  import opened Geometry
  import opened Commands
  import opened BoundingBox
  import opened Transform

  /** One <glyph> element: its character, `horiz-adv-x` and its path. The
      character is the FIRST character of the decoded `unicode` attribute,
      so a ligature such as "ff" is filed under 'f'. */
  datatype GlyphRecord = GlyphRecord(ch: char, advance: real, commands: seq<Command>)

  /** An entry of the program's glyph table. */
  datatype Glyph = Glyph(advance: real, commands: seq<Command>)

  /** One file the program writes: its name, the view box size (which the
      background rectangle, when present, also has) and the path. */
  datatype Output = Output(file: string, width: real, height: real, background: bool, commands: seq<Command>)

  predicate IsAscii(c: char) { c as int < 128 }
  predicate IsUpper(c: char) { 'A' <= c <= 'Z' }
  predicate IsLower(c: char) { 'a' <= c <= 'z' }

  function ToAsciiLower(c: char): char {
    if IsUpper(c) then (c as int + 32) as char else c
  }

  function ToAsciiUpper(c: char): char {
    if IsLower(c) then (c as int - 32) as char else c
  }

  /** Case mapping: lowering never leaves an upper-case letter, raising never
      leaves a lower-case one, the two agree on a letter's pair and raising
      is one-to-one on characters that are not upper-case letters. */
  lemma CaseMapping(c: char, d: char)
    ensures !IsUpper(ToAsciiLower(c)) && !IsLower(ToAsciiUpper(c))
    ensures ToAsciiUpper(ToAsciiLower(c)) == ToAsciiUpper(c)
    ensures IsAscii(ToAsciiLower(c)) <==> IsAscii(c)
    ensures IsAscii(ToAsciiUpper(c)) <==> IsAscii(c)
    ensures c != ToAsciiUpper(c) <==> IsLower(c)
    ensures !IsUpper(c) && !IsUpper(d) && ToAsciiUpper(c) == ToAsciiUpper(d) ==> c == d
  {
  }

  predicate NoDuplicates(s: seq<char>) {
    forall i, j | 0 <= i < j < |s| :: s[i] != s[j]
  }

  /** The characters to process, lower-cased, in order of first appearance. */
  function Letters(records: seq<GlyphRecord>): seq<char> {
    if records == [] then []
    else
      var chars := Letters(records[..|records| - 1]);
      var ch := records[|records| - 1].ch;
      if IsAscii(ch) && ToAsciiLower(ch) !in chars then chars + [ToAsciiLower(ch)] else chars
  }

  /** The glyph table: every ASCII record, a later one replacing an earlier
      one with the same character. */
  function Table(records: seq<GlyphRecord>): map<char, Glyph> {
    if records == [] then map[]
    else
      var table := Table(records[..|records| - 1]);
      var r := records[|records| - 1];
      if IsAscii(r.ch) then table[r.ch := Glyph(r.advance, r.commands)] else table
  }

  /** The character list holds each lower-cased ASCII character of the input
      once, and nothing else; no upper-case letter and nothing outside ASCII. */
  lemma {:induction false} LettersSpec(records: seq<GlyphRecord>)
    ensures NoDuplicates(Letters(records))
    ensures forall c | c in Letters(records) :: IsAscii(c) && !IsUpper(c)
    ensures forall c | c in Letters(records) ::
      exists i | 0 <= i < |records| :: IsAscii(records[i].ch) && ToAsciiLower(records[i].ch) == c
    ensures forall i | 0 <= i < |records| && IsAscii(records[i].ch) :: ToAsciiLower(records[i].ch) in Letters(records)
  {
    if records != [] {
      var init := records[..|records| - 1];
      LettersSpec(init);
      var ch := records[|records| - 1].ch;
      CaseMapping(ch, ch);
      forall c | c in Letters(records)
        ensures exists i | 0 <= i < |records| :: IsAscii(records[i].ch) && ToAsciiLower(records[i].ch) == c
      {
        if c in Letters(init) {
          var i :| 0 <= i < |init| && IsAscii(init[i].ch) && ToAsciiLower(init[i].ch) == c;
          assert records[i] == init[i];
        }
      }
      forall i | 0 <= i < |records| && IsAscii(records[i].ch)
        ensures ToAsciiLower(records[i].ch) in Letters(records)
      {
        if i < |init| {
          assert records[i] == init[i];
        }
      }
    }
  }

  /** The table holds exactly the ASCII characters of the input, each with the
      glyph of its last record. */
  lemma {:induction false} TableSpec(records: seq<GlyphRecord>)
    ensures forall c | c in Table(records) :: IsAscii(c)
    ensures forall i | 0 <= i < |records| && IsAscii(records[i].ch) :: records[i].ch in Table(records)
    ensures forall c | c in Table(records) ::
      exists i | 0 <= i < |records| ::
        records[i].ch == c && Table(records)[c] == Glyph(records[i].advance, records[i].commands) &&
        forall j | i < j < |records| :: records[j].ch != c
  {
    if records != [] {
      var init := records[..|records| - 1];
      var n := |records| - 1;
      TableSpec(init);
      forall i | 0 <= i < |records| && IsAscii(records[i].ch)
        ensures records[i].ch in Table(records)
      {
        if i < n {
          assert records[i] == init[i];
        }
      }
      forall c | c in Table(records)
        ensures exists i | 0 <= i < |records| ::
          records[i].ch == c && Table(records)[c] == Glyph(records[i].advance, records[i].commands) &&
          forall j | i < j < |records| :: records[j].ch != c
      {
        if c != records[n].ch {
          var i :| 0 <= i < |init| &&
            init[i].ch == c && Table(init)[c] == Glyph(init[i].advance, init[i].commands) &&
            forall j | i < j < |init| :: init[j].ch != c;
          assert records[i] == init[i];
          assert forall j | i < j < |records| :: records[j].ch != c by {
            forall j | i < j < |records| ensures records[j].ch != c {
              if j < n {
                assert records[j] == init[j];
              }
            }
          }
        }
      }
    }
  }

  /** The loop of `main` that reads the records: it builds the character
      list and the glyph table. */
  method CollectGlyphs(records: seq<GlyphRecord>) returns (chars: seq<char>, paths: map<char, Glyph>)
    ensures chars == Letters(records) && paths == Table(records)
  {
    chars, paths := [], map[];
    for k := 0 to |records|
      invariant chars == Letters(records[..k]) && paths == Table(records[..k])
    {
      var r := records[k];
      assert records[..k + 1][..k] == records[..k];
      if IsAscii(r.ch) {
        if ToAsciiLower(r.ch) !in chars {
          chars := chars + [ToAsciiLower(r.ch)];
        }
        paths := paths[r.ch := Glyph(r.advance, r.commands)];
      }
    }
    assert records[..|records|] == records;
  }

  /** The last upper-case letter, in 'A'..'Z' order, with a code below `end`
      that has a glyph. */
  function LastUpperBefore(paths: map<char, Glyph>, end: int): (r: Option<char>)
    requires 'A' as int <= end <= 'Z' as int + 1
    ensures r.Some? ==> IsUpper(r.value) && (r.value as int) < end && r.value in paths
    decreases end
  {
    if end == 'A' as int then None
    else if (end - 1) as char in paths then Some((end - 1) as char)
    else LastUpperBefore(paths, end - 1)
  }

  lemma LastUpperStep(paths: map<char, Glyph>, code: int)
    requires 'A' as int <= code <= 'Z' as int
    ensures LastUpperBefore(paths, code + 1) ==
      if code as char in paths then Some(code as char) else LastUpperBefore(paths, code)
  {
  }

  /** LastUpperBefore finds a letter exactly when one below `end` has a
      glyph, and no letter after the one it finds has one. */
  lemma {:induction false} LastUpperIsLast(paths: map<char, Glyph>, end: int)
    requires 'A' as int <= end <= 'Z' as int + 1
    ensures var r := LastUpperBefore(paths, end);
      (r.Some? ==> forall c: char | r.value < c && (c as int) < end :: c !in paths) &&
      (r.None? ==> forall c: char | 'A' <= c && (c as int) < end :: c !in paths)
    decreases end
  {
    if end != 'A' as int && (end - 1) as char !in paths {
      LastUpperIsLast(paths, end - 1);
    }
  }

  /** The pass over a glyph panics. */
  ghost predicate Panics(g: Glyph) {
    Run(Samples(g.commands), Start).Panicked?
  }

  ghost predicate SomeUpperPanics(paths: map<char, Glyph>) {
    exists c: char | IsUpper(c) && c in paths :: Panics(paths[c])
  }

  /** The points the reference box is built from: those of the last
      upper-case letter that has a glyph. Every upper-case glyph is measured
      on the way, so any of them can make the program panic. */
  ghost function ReferencePoints(paths: map<char, Glyph>): Result<seq<Point>, Failure> {
    if SomeUpperPanics(paths) then Err(RelativeBeforeAbsolute)
    else match LastUpperBefore(paths, 'Z' as int + 1)
      case None => Err(NoUppercaseGlyph)
      case Some(c) => Ok(Run(Samples(paths[c].commands), Start).resolved)
  }

  /** A fresh copy of the glyph's commands, measured by `get_rect`. */
  method MeasureGlyph(glyph: Glyph) returns (res: Result<Rect, Failure>)
    ensures res.Err? <==> Panics(glyph)
    ensures res.Err? ==> res.error == RelativeBeforeAbsolute
    ensures res.Ok? ==>
      fresh(res.value) && res.value.Valid() && res.value.points == Run(Samples(glyph.commands), Start).resolved
  {
    var commands := new Command[|glyph.commands|](i requires 0 <= i < |glyph.commands| => glyph.commands[i]);
    assert commands[..] == glyph.commands;
    res := GetRect(commands);
  }

  /** The reference-box loop of `main`: each upper-case glyph found, from 'A'
      to 'Z', has its box computed and replaces the previous one. */
  method ReferenceRect(paths: map<char, Glyph>) returns (res: Result<Rect, Failure>)
    ensures res.Err? <==> ReferencePoints(paths).Err?
    ensures res.Err? ==> res.error == ReferencePoints(paths).error
    ensures res.Ok? ==> fresh(res.value) && res.value.Valid() && res.value.points == ReferencePoints(paths).value
  {
    var rect: Option<Rect> := None;
    ghost var last: Option<char> := None;
    for code := 'A' as int to 'Z' as int + 1
      invariant last == LastUpperBefore(paths, code)
      invariant rect.None? <==> last.None?
      invariant rect.Some? ==> fresh(rect.value) && Measures(rect.value, paths[last.value])
      invariant NoPanicBefore(paths, code)
    {
      var ch := code as char;
      if ch in paths {
        var r := MeasureGlyph(paths[ch]);
        if r.Err? {
          UpperPanicIsFatal(paths, ch);
          return Err(r.error);
        }
        rect := Some(r.value);
        last := Some(ch);
      }
      LastUpperStep(paths, code);
    }
    NoPanicAtAll(paths);
    if rect.None? {
      return Err(NoUppercaseGlyph);
    }
    return Ok(rect.value);
  }

  ghost predicate Measures(r: Rect, g: Glyph)
    reads r
  {
    !Panics(g) && r.Valid() && r.points == Run(Samples(g.commands), Start).resolved
  }

  ghost predicate NoPanicBefore(paths: map<char, Glyph>, end: int) {
    forall c: char | 'A' <= c && (c as int) < end && c in paths :: !Panics(paths[c])
  }

  lemma UpperPanicIsFatal(paths: map<char, Glyph>, c: char)
    requires IsUpper(c) && c in paths && Panics(paths[c])
    ensures ReferencePoints(paths) == Err(RelativeBeforeAbsolute)
  {
  }

  lemma NoPanicAtAll(paths: map<char, Glyph>)
    requires NoPanicBefore(paths, 'Z' as int + 1)
    ensures !SomeUpperPanics(paths)
  {
  }

  /** Only the glyphs of 'A'..'Z' are measured: adding or replacing any
      other glyph, even one whose first point is relative, leaves the
      reference points and the failures as they were. */
  lemma NonUpperGlyphIgnored(paths: map<char, Glyph>, c: char, g: Glyph)
    requires !IsUpper(c)
    ensures ReferencePoints(paths[c := g]) == ReferencePoints(paths)
  {
    var paths' := paths[c := g];
    LastUpperIgnoresOthers(paths, c, g, 'Z' as int + 1);
    if SomeUpperPanics(paths') {
      var d: char :| IsUpper(d) && d in paths' && Panics(paths'[d]);
      assert d in paths && paths[d] == paths'[d];
    }
    if SomeUpperPanics(paths) {
      var d: char :| IsUpper(d) && d in paths && Panics(paths[d]);
      assert d in paths' && paths'[d] == paths[d];
    }
  }

  lemma {:induction false} LastUpperIgnoresOthers(paths: map<char, Glyph>, c: char, g: Glyph, end: int)
    requires !IsUpper(c) && 'A' as int <= end <= 'Z' as int + 1
    ensures LastUpperBefore(paths[c := g], end) == LastUpperBefore(paths, end)
    decreases end
  {
    if end != 'A' as int {
      assert (end - 1) as char != c;
      LastUpperIgnoresOthers(paths, c, g, end - 1);
    }
  }

  /** Where `save` writes a character's image. */
  function FileName(ch: char): string {
    if ch == '/' then "./out/slash.svg" else "./out/" + [ch] + ".svg"
  }

  /** Different characters never share a file. */
  lemma FileNameInjective(a: char, b: char)
    requires a != b
    ensures FileName(a) != FileName(b)
  {
    if a != '/' && b != '/' {
      assert FileName(a)[6] == a && FileName(b)[6] == b;
    } else {
      assert |FileName(a)| != |FileName(b)|;
    }
  }

  /** The file `save` writes, without the writing: the view box and the
      optional background rectangle are the size of the reference box. */
  function Save(ch: char, commands: seq<Command>, box: Box, background: bool): Output {
    Output(FileName(ch), box.Width(), box.Height(), background, commands)
  }

  /** What the character loop of `main` writes for one entry of the
      character list: the upper-case glyph, then the lower-case one when the
      character is a letter that has one. */
  function GlyphOutputs(ch: char, paths: map<char, Glyph>, box: Box): seq<Output> {
    var upper := ToAsciiUpper(ch);
    if upper !in paths then []
    else
      var up := paths[upper];
      [Save(upper, FlipPath(up.commands, box, up.advance), box, true)] +
      if ch != upper && ch in paths then
        [Save(ch, FlipPath(paths[ch].commands, box, paths[ch].advance), box, false)]
      else []
  }

  function Outputs(chars: seq<char>, paths: map<char, Glyph>, box: Box): seq<Output> {
    if chars == [] then []
    else Outputs(chars[..|chars| - 1], paths, box) + GlyphOutputs(chars[|chars| - 1], paths, box)
  }

  /** Everything the program does after reading the font: its files, or the
      panic that stops it. */
  ghost function ExpectedExport(records: seq<GlyphRecord>): Result<seq<Output>, Failure> {
    var paths := Table(records);
    match ReferencePoints(paths)
    case Err(e) => Err(e)
    case Ok(pts) =>
      if pts == [] then Err(EmptyReference)
      else Ok(Outputs(Letters(records), paths, BoundsOf(pts)))
  }

  /** `process_glyph`: flips the upper-case glyph and, when given, the
      lower-case one, each with its own advance width. */
  method ProcessGlyph(ch: char, rect: Rect, pathLower: Option<Glyph>, pathUpper: Glyph)
    returns (outs: seq<Output>)
    requires rect.Valid() && !rect.empty
    ensures |outs| == if pathLower.Some? then 2 else 1
    ensures outs[0] == Save(ToAsciiUpper(ch), FlipPath(pathUpper.commands, rect.Bounds(), pathUpper.advance), rect.Bounds(), true)
    ensures pathLower.Some? ==>
      outs[1] == Save(ch, FlipPath(pathLower.value.commands, rect.Bounds(), pathLower.value.advance), rect.Bounds(), false)
  {
    var box := Box(rect.min, rect.max);
    var commandsUpper := new Command[|pathUpper.commands|](i requires 0 <= i < |pathUpper.commands| => pathUpper.commands[i]);
    assert commandsUpper[..] == pathUpper.commands;
    FlipAndAlignPath(commandsUpper, rect, pathUpper.advance);
    outs := [Save(ToAsciiUpper(ch), commandsUpper[..], box, true)];
    if pathLower.Some? {
      var lower := pathLower.value;
      var commandsLower := new Command[|lower.commands|](i requires 0 <= i < |lower.commands| => lower.commands[i]);
      assert commandsLower[..] == lower.commands;
      FlipAndAlignPath(commandsLower, rect, lower.advance);
      outs := outs + [Save(ch, commandsLower[..], box, false)];
    }
  }

  /** `main` after reading the font. */
  method Export(records: seq<GlyphRecord>) returns (res: Result<seq<Output>, Failure>)
    ensures res == ExpectedExport(records)
  {
    var chars, paths := CollectGlyphs(records);
    var r := ReferenceRect(paths);
    if r.Err? {
      return Err(r.error);
    }
    var rect := r.value;
    if rect.empty {
      return Err(EmptyReference);
    }
    var outputs := ExportGlyphs(chars, paths, rect);
    return Ok(outputs);
  }

  /** The character loop of `main`: every character whose upper-case form
      has a glyph is handed to `process_glyph`, with its lower-case glyph
      when it is a letter that has one. */
  method ExportGlyphs(chars: seq<char>, paths: map<char, Glyph>, rect: Rect) returns (outputs: seq<Output>)
    requires rect.Valid() && !rect.empty
    ensures outputs == Outputs(chars, paths, rect.Bounds())
  {
    ghost var box := rect.Bounds();
    outputs := [];
    for k := 0 to |chars|
      invariant outputs == Outputs(chars[..k], paths, box)
    {
      var ch := chars[k];
      assert chars[..k + 1][..k] == chars[..k];
      var upper := ToAsciiUpper(ch);
      if upper in paths {
        var pathLower := if ch != upper then (if ch in paths then Some(paths[ch]) else None) else None;
        var outs := ProcessGlyph(ch, rect, pathLower, paths[upper]);
        assert outs == GlyphOutputs(ch, paths, box);
        outputs := outputs + outs;
      }
    }
    assert chars[..|chars|] == chars;
  }

  /** The reference box comes from the last upper-case letter with a glyph
      alone, not from a union over all of them. */
  lemma LastUppercaseWins(paths: map<char, Glyph>, c: char)
    requires IsUpper(c) && c in paths && !SomeUpperPanics(paths)
    requires forall d: char | c < d <= 'Z' :: d !in paths
    ensures ReferencePoints(paths) == Ok(Run(Samples(paths[c].commands), Start).resolved)
  {
    LastUpperIsLast(paths, 'Z' as int + 1);
    assert LastUpperBefore(paths, 'Z' as int + 1) == Some(c);
  }

  /** An upper-case glyph whose first sampled point is relative stops the
      whole program, whichever letter it is. */
  lemma RelativeFirstIsFatal(records: seq<GlyphRecord>, c: char)
    requires IsUpper(c) && c in Table(records)
    requires var s := Samples(Table(records)[c].commands); s != [] && s[0].position == Relative
    ensures ExpectedExport(records) == Err(RelativeBeforeAbsolute)
  {
    PanicsIffRelativeFirst(Samples(Table(records)[c].commands));
  }

  /** The pairing rule for one entry of the character list: nothing unless
      its upper-case form has a glyph; then the upper-case image, with a
      background; then, for a lower-case letter that has its own glyph, the
      lower-case image without one. */
  lemma PairingRule(ch: char, paths: map<char, Glyph>, box: Box)
    ensures var outs, upper := GlyphOutputs(ch, paths, box), ToAsciiUpper(ch);
      (upper !in paths ==> outs == []) &&
      (upper in paths ==>
        1 <= |outs| <= 2 && outs[0].file == FileName(upper) && outs[0].background &&
        (|outs| == 2 <==> IsLower(ch) && ch in paths) &&
        (|outs| == 2 ==> outs[1].file == FileName(ch) && !outs[1].background))
  {
    CaseMapping(ch, ch);
  }

  /** Output `o` is one of the images written for list entry `c`. */
  ghost predicate WrittenFor(o: Output, c: char) {
    (o.background && o.file == FileName(ToAsciiUpper(c))) ||
    (!o.background && IsLower(c) && o.file == FileName(c))
  }

  /** Images written for two different entries never share a file. */
  lemma WrittenForDiffer(o1: Output, c1: char, o2: Output, c2: char)
    requires WrittenFor(o1, c1) && WrittenFor(o2, c2)
    requires c1 != c2 && !IsUpper(c1) && !IsUpper(c2)
    ensures o1.file != o2.file
  {
    CaseMapping(c1, c2);
    CaseMapping(c2, c1);
    var x1 := if o1.background then ToAsciiUpper(c1) else c1;
    var x2 := if o2.background then ToAsciiUpper(c2) else c2;
    assert x1 != x2;
    FileNameInjective(x1, x2);
  }

  /** No file is written twice, and each image is written for an entry of
      the list. */
  lemma {:induction false} OutputsDistinct(chars: seq<char>, paths: map<char, Glyph>, box: Box)
    requires NoDuplicates(chars) && forall c | c in chars :: !IsUpper(c)
    ensures forall o | o in Outputs(chars, paths, box) :: exists c | c in chars :: WrittenFor(o, c)
    ensures forall i, j | 0 <= i < j < |Outputs(chars, paths, box)| ::
      Outputs(chars, paths, box)[i].file != Outputs(chars, paths, box)[j].file
    decreases |chars|
  {
    if chars != [] {
      var init, last := chars[..|chars| - 1], chars[|chars| - 1];
      assert NoDuplicates(init) && forall c | c in init :: !IsUpper(c);
      OutputsDistinct(init, paths, box);
      var prev, g := Outputs(init, paths, box), GlyphOutputs(last, paths, box);
      var outs := prev + g;
      assert outs == Outputs(chars, paths, box);
      PairingRule(last, paths, box);
      assert forall o | o in g :: WrittenFor(o, last);
      forall o | o in outs ensures exists c | c in chars :: WrittenFor(o, c) {
        if o in prev {
          var c :| c in init && WrittenFor(o, c);
          assert c in chars;
        } else {
          assert last in chars;
        }
      }
      forall i, j | 0 <= i < j < |outs| ensures outs[i].file != outs[j].file {
        if j >= |prev| {
          assert outs[j] in g;
          if i >= |prev| {
            assert i == |prev| && j == |prev| + 1;
            CaseMapping(last, last);
            FileNameInjective(ToAsciiUpper(last), last);
          } else {
            assert outs[i] in prev;
            var c :| c in init && WrittenFor(outs[i], c);
            assert c != last;
            WrittenForDiffer(outs[i], c, outs[j], last);
          }
        }
      }
    }
  }

  /** The images of a list are those of its parts, in order. */
  lemma {:induction false} OutputsAppend(a: seq<char>, b: seq<char>, paths: map<char, Glyph>, box: Box)
    ensures Outputs(a + b, paths, box) == Outputs(a, paths, box) + Outputs(b, paths, box)
    decreases |b|
  {
    if b == [] {
      assert a + b == a;
    } else {
      var init, last := b[..|b| - 1], b[|b| - 1];
      assert (a + b)[..|a + b| - 1] == a + init && (a + b)[|a + b| - 1] == last;
      var g := GlyphOutputs(last, paths, box);
      calc {
        Outputs(a + b, paths, box);
        Outputs(a + init, paths, box) + g;
        { OutputsAppend(a, init, paths, box); }
        Outputs(a, paths, box) + Outputs(init, paths, box) + g;
        Outputs(a, paths, box) + (Outputs(init, paths, box) + g);
      }
    }
  }

  /** The converse of `OutputsDistinct`: each entry of the list contributes
      exactly the images the pairing rule gives it, between those of the
      entries before it and those after it. */
  lemma OutputsCover(chars: seq<char>, paths: map<char, Glyph>, box: Box, k: nat)
    requires k < |chars|
    ensures Outputs(chars, paths, box) ==
      Outputs(chars[..k], paths, box) + GlyphOutputs(chars[k], paths, box) + Outputs(chars[k + 1..], paths, box)
  {
    assert chars == chars[..k] + [chars[k]] + chars[k + 1..];
    OutputsAppend(chars[..k] + [chars[k]], chars[k + 1..], paths, box);
    OutputsAppend(chars[..k], [chars[k]], paths, box);
    assert Outputs([chars[k]], paths, box) == GlyphOutputs(chars[k], paths, box);
  }

  /** Every file the program writes has its own name, the name of an ASCII
      character: a glyph outside ASCII never reaches the output. */
  lemma ExportedFiles(records: seq<GlyphRecord>)
    requires ExpectedExport(records).Ok?
    ensures forall i, j | 0 <= i < j < |ExpectedExport(records).value| ::
      ExpectedExport(records).value[i].file != ExpectedExport(records).value[j].file
    ensures forall o | o in ExpectedExport(records).value :: exists c | IsAscii(c) :: o.file == FileName(c)
  {
    LettersSpec(records);
    var chars, paths := Letters(records), Table(records);
    var pts := ReferencePoints(paths).value;
    var box := BoundsOf(pts);
    assert ExpectedExport(records).value == Outputs(chars, paths, box);
    OutputsDistinct(chars, paths, box);
    forall o | o in ExpectedExport(records).value ensures exists c | IsAscii(c) :: o.file == FileName(c) {
      var c :| c in chars && WrittenFor(o, c);
      CaseMapping(c, c);
      if o.background {
        assert IsAscii(ToAsciiUpper(c));
      }
    }
  }
}

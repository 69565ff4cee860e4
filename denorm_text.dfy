/** The denormalized text format of `JsonSam`: one JSON-encoded path per
    line, no newline after the last one, and a `_` in front when there is
    exactly one path (so that the file does not read as a single JSON list).
    The JSON encoder and decoder are parameters: `encode` is `json.dumps` on
    a path, `decode` is `json.loads` with `None` for a decoding error. */
module DenormText {
  import opened Wrappers
  import opened JsonValue

  /** What `json.dumps` makes of a list: a non-empty line that opens with `[`. */
  predicate EncodedLine(s: string)
  {
    |s| > 0 && s[0] == '[' && '\n' !in s
  }

  /** The encoder never breaks a line. */
  ghost predicate LineEncoder(encode: Path -> string)
  {
    forall p :: EncodedLine(encode(p))
  }

  /** The decoder reads back what the encoder wrote, and rejects it with a `_` in front. */
  ghost predicate Inverse(encode: Path -> string, decode: string -> Option<Path>)
  {
    forall p :: decode(encode(p)) == Some(p) && decode("_" + encode(p)) == None
  }

  // ---------------------------------------------------------------------
  // Lines

  /** The lines of the file, one encoded path each. */
  function Lines(paths: seq<Path>, encode: Path -> string): (r: seq<string>)
    ensures |r| == |paths|
    ensures forall i :: 0 <= i < |paths| ==> r[i] == encode(paths[i])
  {
    seq(|paths|, i requires 0 <= i < |paths| => encode(paths[i]))
  }

  /** `'\n'.join(lines)`. */
  function Join(lines: seq<string>): string
  {
    if |lines| == 0 then ""
    else if |lines| == 1 then lines[0]
    else Join(lines[..|lines| - 1]) + "\n" + lines[|lines| - 1]
  }

  /** Position of the last newline, or -1. */
  function LastNewline(s: string): (i: int)
    ensures -1 <= i < |s|
    ensures i >= 0 ==> s[i] == '\n'
    ensures forall j :: i < j < |s| ==> s[j] != '\n'
  {
    if |s| == 0 then -1
    else if s[|s| - 1] == '\n' then |s| - 1
    else LastNewline(s[..|s| - 1])
  }

  lemma {:induction false} LastNewlineIs(s: string, i: int)
    requires -1 <= i < |s| && (i >= 0 ==> s[i] == '\n')
    requires forall j :: i < j < |s| ==> s[j] != '\n'
    ensures LastNewline(s) == i
    decreases |s|
  {
    if |s| > 0 && s[|s| - 1] != '\n' {
      var init := s[..|s| - 1];
      assert forall j :: i < j < |init| ==> init[j] == s[j];
      LastNewlineIs(init, i);
    }
  }

  /** `s.split('\n')`: the pieces between newlines, an empty piece where two
      newlines meet or at either end. */
  function Split(s: string): (r: seq<string>)
    ensures |r| > 0
    decreases |s|
  {
    var i := LastNewline(s);
    if i < 0 then [s] else Split(s[..i]) + [s[i + 1..]]
  }

  /** Splitting joined lines gives the lines back when none holds a newline. */
  lemma {:induction false} SplitJoin(lines: seq<string>)
    requires |lines| > 0
    requires forall i :: 0 <= i < |lines| ==> '\n' !in lines[i]
    ensures Split(Join(lines)) == lines
    decreases |lines|
  {
    if |lines| == 1 {
      LastNewlineIs(lines[0], -1);
    } else {
      var init := lines[..|lines| - 1];
      var last := lines[|lines| - 1];
      var s := Join(lines);
      var p := |Join(init)|;
      assert s == Join(init) + "\n" + last;
      assert forall j :: p < j < |s| ==> s[j] == last[j - p - 1];
      LastNewlineIs(s, p);
      assert s[..p] == Join(init) && s[p + 1..] == last;
      SplitJoin(init);
      assert init + [last] == lines;
    }
  }

  // ---------------------------------------------------------------------
  // Writing

  /** The text the writer's loop accumulates: each encoded path followed by a newline. */
  function Terminated(paths: seq<Path>, encode: Path -> string): string
  {
    if paths == [] then ""
    else Terminated(paths[..|paths| - 1], encode) + encode(paths[|paths| - 1]) + "\n"
  }

  /** The framed text: the lines joined by newlines, with `_` in front of a single path. */
  function Framed(paths: seq<Path>, encode: Path -> string): (r: string)
    ensures paths == [] ==> r == ""
    ensures |paths| == 1 ==> r == "_" + encode(paths[0])
    ensures |paths| > 1 ==> r == Join(Lines(paths, encode))
  {
    (if |paths| == 1 then "_" else "") + Join(Lines(paths, encode))
  }

  lemma {:induction false} TerminatedJoin(paths: seq<Path>, encode: Path -> string)
    ensures paths == [] ==> Terminated(paths, encode) == ""
    ensures paths != [] ==> Terminated(paths, encode) == Join(Lines(paths, encode)) + "\n"
    decreases |paths|
  {
    if |paths| > 1 {
      var init := paths[..|paths| - 1];
      TerminatedJoin(init, encode);
      assert Lines(paths, encode)[..|paths| - 1] == Lines(init, encode);
    } else if |paths| == 1 {
      assert paths[..0] == [];
    }
  }

  /** `_write_denormed` up to the file write: the loop, the dropped final
      newline, and the `_` for a single path. */
  method WriteDenormed(paths: seq<Path>, encode: Path -> string) returns (text: string)
    ensures text == Framed(paths, encode)
  {
    var outTxt := "";
    for i := 0 to |paths|
      invariant outTxt == Terminated(paths[..i], encode)
    {
      assert paths[..i + 1][..i] == paths[..i];
      outTxt := outTxt + encode(paths[i]) + "\n";
    }
    assert paths[..|paths|] == paths;
    TerminatedJoin(paths, encode);
    if |outTxt| > 0 {
      outTxt := outTxt[..|outTxt| - 1];
    }
    if |paths| == 1 {
      outTxt := "_" + outTxt;
    }
    text := outTxt;
  }

  /** The framing: one line per path and no trailing newline; the text
      starts with `_` exactly when there is exactly one path. */
  lemma FramedShape(paths: seq<Path>, encode: Path -> string)
    requires LineEncoder(encode)
    ensures |paths| != 1 ==> Split(Framed(paths, encode)) == if paths == [] then [""] else Lines(paths, encode)
    ensures |paths| == 1 ==> Split(Framed(paths, encode)) == ["_" + encode(paths[0])]
    ensures paths != [] ==> |Framed(paths, encode)| > 0 && Framed(paths, encode)[|Framed(paths, encode)| - 1] != '\n'
    ensures (|Framed(paths, encode)| > 0 && Framed(paths, encode)[0] == '_') <==> |paths| == 1
  {
    var lines := Lines(paths, encode);
    assert forall i :: 0 <= i < |lines| ==> EncodedLine(lines[i]);
    if paths == [] {
      LastNewlineIs("", -1);
    } else {
      JoinEnds(lines);
      if |paths| == 1 {
        var s := "_" + encode(paths[0]);
        assert forall j :: 0 <= j < |s| ==> s[j] != '\n';
        LastNewlineIs(s, -1);
      } else {
        assert Framed(paths, encode) == Join(lines);
        SplitJoin(lines);
      }
    }
  }

  /** Joined encoded lines start like the first line and end like the last. */
  lemma {:induction false} JoinEnds(lines: seq<string>)
    requires |lines| > 0
    requires forall i :: 0 <= i < |lines| ==> EncodedLine(lines[i])
    ensures |Join(lines)| > 0 && Join(lines)[0] == '['
    ensures Join(lines)[|Join(lines)| - 1] != '\n'
    decreases |lines|
  {
    if |lines| > 1 {
      var last := lines[|lines| - 1];
      assert last[|last| - 1] in last;
      JoinEnds(lines[..|lines| - 1]);
    } else {
      assert lines[0][|lines[0]| - 1] in lines[0];
    }
  }

  // ---------------------------------------------------------------------
  // Loading

  /** One line of a denormalized file: decoded as it stands, or else with its
      first character dropped. `None` is the decoding error that escapes. */
  function ParseLine(line: string, decode: string -> Option<Path>): Option<Path>
  {
    match decode(line)
    case Some(p) => Some(p)
    case None => if |line| > 0 then decode(line[1..]) else None
  }

  /** The first `n` pieces of a file: empty pieces are skipped, the first
      line that fails both ways stops the load. */
  function ParsePrefix(pieces: seq<string>, n: nat, decode: string -> Option<Path>): (r: Option<seq<Path>>)
    requires n <= |pieces|
    ensures r.Some? ==> |r.value| <= n
    ensures (forall i :: 0 <= i < n ==> pieces[i] == "") ==> r == Some([])
  {
    if n == 0 then Some([])
    else
      match ParsePrefix(pieces, n - 1, decode)
      case None => None
      case Some(done) =>
        var line := pieces[n - 1];
        if line == "" then Some(done)
        else
          match ParseLine(line, decode)
          case None => None
          case Some(p) => Some(done + [p])
  }

  /** All the pieces of a file. */
  function ParseAll(pieces: seq<string>, decode: string -> Option<Path>): Option<seq<Path>>
  {
    ParsePrefix(pieces, |pieces|, decode)
  }

  /** The per-line loop of `_load_data` on a file that is not one JSON value. */
  method LoadLines(raw: string, decode: string -> Option<Path>) returns (r: Option<seq<Path>>)
    ensures r == ParseAll(Split(raw), decode)
  {
    var pieces := Split(raw);
    var ret: seq<Path> := [];
    for i := 0 to |pieces|
      invariant ParsePrefix(pieces, i, decode) == Some(ret)
    {
      var line := pieces[i];
      if line != "" {
        var parsed := decode(line);
        if parsed.None? {
          parsed := decode(line[1..]);
          if parsed.None? {
            ParseStops(pieces, i + 1, |pieces|, decode);
            return None;
          }
        }
        ret := ret + [parsed.value];
      }
    }
    return Some(ret);
  }

  /** Once a line fails both ways, the load stays failed. */
  lemma {:induction false} ParseStops(pieces: seq<string>, i: nat, n: nat, decode: string -> Option<Path>)
    requires i <= n <= |pieces| && ParsePrefix(pieces, i, decode).None?
    ensures ParsePrefix(pieces, n, decode).None?
    decreases n
  {
    if n > i {
      ParseStops(pieces, i, n - 1, decode);
    }
  }

  /** Lines the encoder wrote decode back to their paths. */
  lemma {:induction false} ParseEncoded(paths: seq<Path>, n: nat, encode: Path -> string, decode: string -> Option<Path>)
    requires LineEncoder(encode) && Inverse(encode, decode) && n <= |paths|
    ensures ParsePrefix(Lines(paths, encode), n, decode) == Some(paths[..n])
    decreases n
  {
    if n > 0 {
      var lines := Lines(paths, encode);
      ParseEncoded(paths, n - 1, encode, decode);
      var line := lines[n - 1];
      assert line == encode(paths[n - 1]) && EncodedLine(line);
      assert ParseLine(line, decode) == Some(paths[n - 1]);
      assert paths[..n - 1] + [paths[n - 1]] == paths[..n];
    }
  }

  /** The framed text loads back as the paths it was written from; a single
      path comes back through the retry without its `_`. */
  lemma FramedRoundTrip(paths: seq<Path>, encode: Path -> string, decode: string -> Option<Path>)
    requires LineEncoder(encode) && Inverse(encode, decode)
    ensures ParseAll(Split(Framed(paths, encode)), decode) == Some(paths)
  {
    FramedShape(paths, encode);
    if |paths| == 1 {
      var line := "_" + encode(paths[0]);
      assert line[1..] == encode(paths[0]);
      assert decode(line) == None;
      assert ParseLine(line, decode) == Some(paths[0]);
      var none: seq<Path> := [];
      assert none + [paths[0]] == paths;
      assert ParsePrefix([line], 1, decode) == Some(none + [paths[0]]);
    } else if paths == [] {
      assert ParsePrefix([""], 1, decode) == Some([]);
    } else {
      ParseEncoded(paths, |paths|, encode, decode);
      assert paths[..|paths|] == paths;
    }
  }

  // ---------------------------------------------------------------------
  // The consistency flag across input files

  /** How an input file was read: as one JSON value, or line by line. */
  datatype Form = Normalized | Denormalized

  /** Every file has the form of the first. */
  predicate Uniform(forms: seq<Form>)
  {
    forall i :: 0 <= i < |forms| ==> forms[i] == forms[0]
  }

  /** `denormed_input` across the files: `None` before the first, then the
      first file's form; a file of the other form is an error, reported
      with its position. */
  method InputForm(forms: seq<Form>) returns (r: Result<Option<bool>, nat>)
    ensures r.Ok? <==> Uniform(forms)
    ensures r.Ok? ==> r.value == if forms == [] then None else Some(forms[0] == Denormalized)
    ensures r.Err? ==> r.error < |forms| && forms[r.error] != forms[0] && Uniform(forms[..r.error])
  {
    var denormedInput: Option<bool> := None;
    for i := 0 to |forms|
      invariant i == 0 <==> denormedInput.None?
      invariant i > 0 ==> denormedInput == Some(forms[0] == Denormalized)
      invariant Uniform(forms[..i])
    {
      assert forms[..i + 1][..i] == forms[..i];
      if forms[i] == Normalized {
        if denormedInput.None? {
          denormedInput := Some(false);
        } else if denormedInput.value {
          return Err(i);
        }
      } else {
        if denormedInput.None? {
          denormedInput := Some(true);
        } else if !denormedInput.value {
          return Err(i);
        }
      }
    }
    assert forms[..|forms|] == forms;
    return Ok(denormedInput);
  }
}

/** The uniform-declaration scanner (`extractUniforms`).  It reads shader
    source line by line, splits each line into words and reports every
    `uniform <type> <name>;` line until the first line whose first word is
    `void`.  Two dialects exist: index.ts and src/kernel.ts read the type and
    name from words 2 and 3; src/program.ts additionally skips one precision
    qualifier after `uniform`. */
module Scanner {
  import opened Results
  import opened Text

  /** One declaration: the declared type word and the name (the third word
      without its last character, normally the `;`). */
  datatype Decl = Decl(typ: string, name: string)

  datatype Dialect =
    | Plain      // index.ts, src/kernel.ts: no precision qualifiers
    | Qualified  // src/program.ts: `uniform [lowp|mediump|highp] <type> <name>;`

  /** What one line of source means to the scanner. */
  datatype LineKind =
    | Declares(decl: Decl)
    | Stops       // first word `void`: the entry point, scanning ends
    | Skips       // any other line
    | Malformed   // a `uniform` line too short to hold a name: the source throws a TypeError

  predicate IsQualifier(w: string) {
    w == "lowp" || w == "mediump" || w == "highp"
  }

  /** Where the type word of a `uniform` line sits: after `uniform`, and
      after a precision qualifier when the dialect reads one. */
  function TypeIndex(d: Dialect, words: seq<string>): (n: nat)
    ensures n == 1 || n == 2
  {
    if d == Qualified && |words| >= 2 && IsQualifier(words[1]) then 2 else 1
  }

  /** The reading of one line's words.  `words[k]` past the end is JavaScript's
      `undefined`; calling `.slice` on it is what makes a short line malformed. */
  function Classify(d: Dialect, words: seq<string>): (r: LineKind)
    ensures r.Stops? <==> |words| > 0 && words[0] == "void"
    ensures r.Skips? <==> |words| == 0 || (words[0] != "void" && words[0] != "uniform")
    ensures r.Malformed? <==> |words| > 0 && words[0] == "uniform" && |words| <= TypeIndex(d, words) + 1
    ensures r.Declares? ==>
      var n := TypeIndex(d, words);
      n + 1 < |words| && r.decl == Decl(words[n], DropLast(words[n + 1]))
  {
    if |words| == 0 then Skips
    else if words[0] == "void" then Stops
    else if words[0] != "uniform" then Skips
    else if d == Qualified && |words| >= 2 && IsQualifier(words[1]) then
      if |words| < 4 then Malformed else Declares(Decl(words[2], DropLast(words[3])))
    else if |words| < 3 then Malformed
    else Declares(Decl(words[1], DropLast(words[2])))
  }

  function LineKindOf(d: Dialect, line: string): LineKind {
    Classify(d, Words(line))
  }

  /** A precision qualifier shifts the type and the name one word to the right. */
  lemma QualifierShifts(q: string, rest: seq<string>)
    requires IsQualifier(q)
    ensures Classify(Qualified, ["uniform", q] + rest) == Classify(Plain, ["uniform"] + rest)
  {
    var ws := ["uniform", q] + rest;
    assert ws[0] == "uniform" && ws[1] == q;
    assert |ws| >= 4 ==> ws[2..4] == rest[..2];
  }

  /** Without a qualifier in second position the two dialects read a line alike. */
  lemma DialectsAgree(words: seq<string>)
    requires |words| < 2 || !IsQualifier(words[1])
    ensures Classify(Qualified, words) == Classify(Plain, words)
  {
  }

  /** A reading applied to every line. */
  function MapLines(f: string -> LineKind, lines: seq<string>): (ks: seq<LineKind>)
    ensures |ks| == |lines|
    ensures forall i :: 0 <= i < |lines| ==> ks[i] == f(lines[i])
  {
    seq(|lines|, i requires 0 <= i < |lines| => f(lines[i]))
  }

  lemma MapLinesConcat(f: string -> LineKind, a: seq<string>, b: seq<string>)
    ensures MapLines(f, a + b) == MapLines(f, a) + MapLines(f, b)
  {
    var lhs, rhs := MapLines(f, a + b), MapLines(f, a) + MapLines(f, b);
    forall i | 0 <= i < |lhs|
      ensures lhs[i] == rhs[i]
    {
      if i < |a| {
        assert (a + b)[i] == a[i];
      } else {
        assert (a + b)[i] == b[i - |a|];
      }
    }
  }

  /** The reading of every line. */
  function KindsOf(d: Dialect, lines: seq<string>): (ks: seq<LineKind>)
    ensures |ks| == |lines|
  {
    MapLines(line => LineKindOf(d, line), lines)
  }

  lemma KindsOfAt(d: Dialect, lines: seq<string>, i: nat)
    requires i < |lines|
    ensures KindsOf(d, lines)[i] == LineKindOf(d, lines[i])
  {
  }

  /** The position of the first `void` line, or the number of lines. */
  function StopIndex(ks: seq<LineKind>): (k: nat)
    ensures k <= |ks|
    ensures forall i :: 0 <= i < k ==> !ks[i].Stops?
    ensures k < |ks| ==> ks[k].Stops?
  {
    if |ks| == 0 || ks[0].Stops? then 0 else 1 + StopIndex(ks[1..])
  }

  /** The declarations among the lines, in order: the reference reading, with
      no stop rule and no errors. */
  function DeclsOf(ks: seq<LineKind>): (ds: seq<Decl>)
    ensures forall decl :: decl in ds <==> Declares(decl) in ks
  {
    if |ks| == 0 then []
    else
      assert forall k :: k in ks <==> k == ks[0] || k in ks[1..];
      (if ks[0].Declares? then [ks[0].decl] else []) + DeclsOf(ks[1..])
  }

  /** The scan proper: throw at the first malformed declaration, return at the
      first `void` line. */
  function ScanKinds(ks: seq<LineKind>): (r: Result<seq<Decl>>)
    ensures r.Err? <==> Malformed in ks[..StopIndex(ks)]
    ensures r.Err? ==> r.error == MissingWord
    ensures r.Ok? ==> r.value == DeclsOf(ks[..StopIndex(ks)])
  {
    if |ks| == 0 then Ok([])
    else
      var k := StopIndex(ks);
      assert k > 0 ==> ks[..k] == [ks[0]] + ks[1..][..k - 1];
      match ks[0]
      case Stops => Ok([])
      case Malformed => Err(MissingWord)
      case Skips => ScanKinds(ks[1..])
      case Declares(decl) =>
        var rest :- ScanKinds(ks[1..]);
        Ok([decl] + rest)
  }

  /** The scan over a list of source lines. */
  function Scan(d: Dialect, lines: seq<string>): Result<seq<Decl>> {
    ScanKinds(KindsOf(d, lines))
  }

  /** `extractUniforms(glsl)`: split the source on newlines and scan.  It
      throws exactly when a too-short `uniform` line comes before the first
      `void` line, and otherwise returns the declarations before that line,
      in source order. */
  function ExtractUniforms(d: Dialect, src: string): (r: Result<seq<Decl>>)
    ensures var ks := KindsOf(d, Split(src, '\n'));
      && (r.Err? <==> Malformed in ks[..StopIndex(ks)])
      && (r.Err? ==> r.error == MissingWord)
      && (r.Ok? ==> r.value == DeclsOf(ks[..StopIndex(ks)]))
  {
    Scan(d, Split(src, '\n'))
  }

  lemma {:induction false} ScanKindsStops(before: seq<LineKind>, after: seq<LineKind>)
    ensures ScanKinds(before + [Stops] + after) == ScanKinds(before)
  {
    if |before| > 0 {
      ScanKindsStops(before[1..], after);
      assert (before + [Stops] + after)[1..] == before[1..] + [Stops] + after;
    }
  }

  /** For any reading of the lines, a stopping line hides what follows it. */
  lemma MapLinesStops(f: string -> LineKind, before: seq<string>, stop: string, after: seq<string>)
    requires f(stop).Stops?
    ensures ScanKinds(MapLines(f, before + [stop] + after)) == ScanKinds(MapLines(f, before))
  {
    MapLinesConcat(f, before + [stop], after);
    MapLinesConcat(f, before, [stop]);
    assert MapLines(f, [stop]) == [Stops];
    ScanKindsStops(MapLines(f, before), MapLines(f, after));
  }

  /** Lines after the first `void` line are never read. */
  lemma {:induction false} ScanStopsAtVoid(d: Dialect, before: seq<string>, stop: string, after: seq<string>)
    requires LineKindOf(d, stop).Stops?
    ensures Scan(d, before + [stop] + after) == Scan(d, before)
  {
    MapLinesStops(line => LineKindOf(d, line), before, stop, after);
  }

  /** A well-formed declaration line, as a shader author writes it. */
  function DeclLine(decl: Decl): string {
    "uniform " + decl.typ + " " + decl.name + ";"
  }

  predicate Writable(decl: Decl) {
    && decl.typ != "" && ' ' !in decl.typ && '\n' !in decl.typ && !IsQualifier(decl.typ)
    && ' ' !in decl.name && '\n' !in decl.name
  }

  lemma LineOfDecl(d: Dialect, decl: Decl)
    requires Writable(decl)
    ensures LineKindOf(d, DeclLine(decl)) == Declares(decl)
    ensures '\n' !in DeclLine(decl)
  {
    var ws := ["uniform", decl.typ, decl.name + ";"];
    assert Join(ws[2..], ' ') == decl.name + ";";
    assert Join(ws[1..], ' ') == decl.typ + [' '] + (decl.name + ";");
    assert Join(ws, ' ') == "uniform" + [' '] + Join(ws[1..], ' ');
    assert Join(ws, ' ') == DeclLine(decl);
    WordsOfJoin(ws);
    assert DropLast(decl.name + ";") == decl.name;
  }

  function DeclLines(ds: seq<Decl>): (lines: seq<string>)
    ensures |lines| == |ds|
  {
    if |ds| == 0 then [] else [DeclLine(ds[0])] + DeclLines(ds[1..])
  }

  /** A run of declaration lines scans to their declarations, in order. */
  lemma {:induction false} ScanDeclares(ks: seq<LineKind>, ds: seq<Decl>)
    requires |ks| == |ds| && forall i :: 0 <= i < |ks| ==> ks[i] == Declares(ds[i])
    ensures ScanKinds(ks) == Ok(ds)
  {
    if |ks| > 0 {
      ScanDeclares(ks[1..], ds[1..]);
      assert ds == [ds[0]] + ds[1..];
    }
  }

  lemma {:induction false} ScanDeclLines(d: Dialect, ds: seq<Decl>)
    requires forall i :: 0 <= i < |ds| ==> Writable(ds[i])
    ensures Scan(d, DeclLines(ds)) == Ok(ds)
  {
    var ks := KindsOf(d, DeclLines(ds));
    forall i | 0 <= i < |ds|
      ensures ks[i] == Declares(ds[i])
    {
      DeclLinesAt(ds, i);
      LineOfDecl(d, ds[i]);
      KindsOfAt(d, DeclLines(ds), i);
    }
    ScanDeclares(ks, ds);
  }

  lemma EmptyLineSkips(d: Dialect)
    ensures LineKindOf(d, "") == Skips
  {
    assert Words("") == [] by {
      assert TrimLeft("") == "";
      assert Split("", ' ') == [""];
      assert DropEmpty([""]) == [];
    }
  }

  /** A single line that is skipped declares nothing. */
  lemma MapLinesOneSkip(f: string -> LineKind, line: string)
    requires f(line) == Skips
    ensures ScanKinds(MapLines(f, [line])) == Ok([])
  {
    assert MapLines(f, [line]) == [Skips];
    assert [Skips][1..] == [];
  }

  /** An empty source declares nothing. */
  lemma EmptySource(d: Dialect)
    ensures ExtractUniforms(d, "") == Ok([])
  {
    assert Split("", '\n') == [""];
    EmptyLineSkips(d);
    MapLinesOneSkip(line => LineKindOf(d, line), "");
  }

  /** Lines written from writable declarations hold no line break. */
  lemma {:induction false} DeclLinesUnbroken(d: Dialect, ds: seq<Decl>)
    requires forall i :: 0 <= i < |ds| ==> Writable(ds[i])
    ensures forall i :: 0 <= i < |ds| ==> '\n' !in DeclLines(ds)[i]
  {
    forall i | 0 <= i < |ds|
      ensures '\n' !in DeclLines(ds)[i]
    {
      DeclLinesAt(ds, i);
      LineOfDecl(d, ds[i]);
    }
  }

  /** Round trip: source written as one declaration per line is scanned back
      to exactly those declarations, in order, in both dialects. */
  lemma {:induction false} ExtractWritten(d: Dialect, ds: seq<Decl>)
    requires forall i :: 0 <= i < |ds| ==> Writable(ds[i])
    ensures ExtractUniforms(d, Join(DeclLines(ds), '\n')) == Ok(ds)
  {
    if |ds| == 0 {
      EmptySource(d);
    } else {
      DeclLinesUnbroken(d, ds);
      SplitJoin(DeclLines(ds), '\n');
      ScanDeclLines(d, ds);
    }
  }

  lemma {:induction false} DeclLinesAt(ds: seq<Decl>, i: nat)
    requires i < |ds|
    ensures DeclLines(ds)[i] == DeclLine(ds[i])
  {
    if i > 0 {
      DeclLinesAt(ds[1..], i - 1);
    }
  }
}

/** The handful of JavaScript string operations the shader scanner and the
    parameter tables rely on: `split`, `trimLeft`, dropping empty words,
    `slice(0, length - 1)`, the library's own `startsWith`, and the decimal
    rendering used by the template literal `vec${n}`. */
module Text {

  /** The characters `String.prototype.trimLeft` removes: the WhiteSpace and
      LineTerminator code points of ECMAScript. */
  predicate IsJsSpace(c: char) {
    || c == ' ' || c == '\t' || c == '\n' || c == '\r' || c == '\U{000B}' || c == '\U{000C}'
    || c == '\U{00A0}' || c == '\U{1680}' || ('\U{2000}' <= c <= '\U{200A}')
    || c == '\U{2028}' || c == '\U{2029}' || c == '\U{202F}' || c == '\U{205F}'
    || c == '\U{3000}' || c == '\U{FEFF}'
  }

  /** `s.trimLeft()`: the longest suffix of `s` that does not start with white space. */
  function TrimLeft(s: string): (r: string)
    ensures |r| <= |s| && r == s[|s| - |r|..]
    ensures forall i :: 0 <= i < |s| - |r| ==> IsJsSpace(s[i])
    ensures r == [] || !IsJsSpace(r[0])
  {
    if |s| > 0 && IsJsSpace(s[0]) then TrimLeft(s[1..]) else s
  }

  /** `s.split(sep)` for a one-character separator: the pieces between
      separators, always at least one (`"".split(" ")` is `[""]`). */
  function Split(s: string, sep: char): (r: seq<string>)
    ensures |r| >= 1
    ensures forall i :: 0 <= i < |r| ==> sep !in r[i]
  {
    if |s| == 0 then [""]
    else
      var rest := Split(s[1..], sep);
      if s[0] == sep then [""] + rest else [[s[0]] + rest[0]] + rest[1..]
  }

  /** `parts.join(sep)`. */
  function Join(parts: seq<string>, sep: char): string {
    if |parts| == 0 then ""
    else if |parts| == 1 then parts[0]
    else parts[0] + [sep] + Join(parts[1..], sep)
  }

  /** Joining the pieces of a split gives back the original string. */
  lemma {:induction false} JoinSplit(s: string, sep: char)
    ensures Join(Split(s, sep), sep) == s
  {
    if |s| > 0 {
      JoinSplit(s[1..], sep);
      var rest := Split(s[1..], sep);
      if s[0] != sep && |rest| > 1 {
        assert Join(rest, sep) == rest[0] + [sep] + Join(rest[1..], sep);
      }
      assert s == [s[0]] + s[1..];
    }
  }

  lemma {:induction false} SplitPrefix(a: string, b: string, sep: char)
    requires sep !in a
    ensures Split(a + b, sep) == [a + Split(b, sep)[0]] + Split(b, sep)[1..]
  {
    var sb := Split(b, sep);
    if |a| > 0 {
      SplitPrefix(a[1..], b, sep);
      assert (a + b)[0] == a[0] && a[0] != sep;
      assert (a + b)[1..] == a[1..] + b;
      var rest := Split(a[1..] + b, sep);
      assert rest == [a[1..] + sb[0]] + sb[1..];
      assert Split(a + b, sep) == [[a[0]] + rest[0]] + rest[1..];
      assert [a[0]] + (a[1..] + sb[0]) == a + sb[0];
    } else {
      assert a + b == b;
      assert a + sb[0] == sb[0];
      assert [sb[0]] + sb[1..] == sb;
    }
  }

  /** Splitting pieces that contain no separator, once joined, gives the pieces back. */
  lemma {:induction false} SplitJoin(parts: seq<string>, sep: char)
    requires |parts| >= 1
    requires forall i :: 0 <= i < |parts| ==> sep !in parts[i]
    ensures Split(Join(parts, sep), sep) == parts
  {
    if |parts| == 1 {
      SplitPrefix(parts[0], "", sep);
      assert parts[0] + "" == parts[0];
    } else {
      SplitJoin(parts[1..], sep);
      var tail := [sep] + Join(parts[1..], sep);
      SplitPrefix(parts[0], tail, sep);
      assert parts[0] + [sep] + Join(parts[1..], sep) == parts[0] + tail;
      assert tail[0] == sep && tail[1..] == Join(parts[1..], sep);
      assert Split(tail, sep) == [""] + parts[1..];
      assert parts[0] + "" == parts[0];
      assert parts == [parts[0]] + parts[1..];
    }
  }

  /** `words.filter(w => w != "")`. */
  function DropEmpty(words: seq<string>): (r: seq<string>)
    ensures |r| <= |words|
    ensures forall w :: w in r <==> w in words && w != ""
  {
    if |words| == 0 then []
    else
      assert forall w :: w in words <==> w == words[0] || w in words[1..];
      (if words[0] == "" then [] else [words[0]]) + DropEmpty(words[1..])
  }

  /** A single word is kept exactly when it is not empty ... */
  lemma DropEmptyOne(w: string)
    ensures DropEmpty([w]) == if w == "" then [] else [w]
  {
    assert [w][1..] == [];
  }

  /** ... and filtering a concatenation filters each part in place, so the
      kept words keep their order and their number of occurrences. */
  lemma {:induction false} DropEmptyConcat(a: seq<string>, b: seq<string>)
    ensures DropEmpty(a + b) == DropEmpty(a) + DropEmpty(b)
  {
    if |a| == 0 {
      assert a + b == b;
    } else {
      var kept := if a[0] == "" then [] else [a[0]];
      assert (a + b)[0] == a[0] && (a + b)[1..] == a[1..] + b;
      assert DropEmpty(a + b) == kept + DropEmpty(a[1..] + b);
      assert DropEmpty(a) == kept + DropEmpty(a[1..]);
      DropEmptyConcat(a[1..], b);
    }
  }

  /** The words of a line, as the scanner computes them:
      `line.trimLeft().split(" ").filter(w => w != "")`. */
  function Words(line: string): (ws: seq<string>)
    ensures forall i :: 0 <= i < |ws| ==> ws[i] != "" && ' ' !in ws[i]
  {
    var pieces := Split(TrimLeft(line), ' ');
    var ws := DropEmpty(pieces);
    assert forall i :: 0 <= i < |ws| ==> ws[i] in pieces;
    ws
  }

  lemma {:induction false} DropEmptyKeeps(words: seq<string>)
    requires forall i :: 0 <= i < |words| ==> words[i] != ""
    ensures DropEmpty(words) == words
  {
    if |words| > 0 {
      DropEmptyKeeps(words[1..]);
      assert words == [words[0]] + words[1..];
    }
  }

  /** Words separated by single spaces are read back exactly, provided the
      first does not begin with a character `trimLeft` would remove. */
  lemma {:induction false} WordsOfJoin(ws: seq<string>)
    requires forall i :: 0 <= i < |ws| ==> ws[i] != "" && ' ' !in ws[i]
    requires |ws| > 0 ==> !IsJsSpace(ws[0][0])
    ensures Words(Join(ws, ' ')) == ws
  {
    if |ws| == 0 {
      assert Split("", ' ') == [""];
      assert DropEmpty([""]) == [];
    } else {
      var line := Join(ws, ' ');
      JoinStartsWithFirst(ws, ' ');
      assert TrimLeft(line) == line;
      SplitJoin(ws, ' ');
      DropEmptyKeeps(ws);
    }
  }

  lemma {:induction false} JoinStartsWithFirst(ws: seq<string>, sep: char)
    requires |ws| > 0 && ws[0] != ""
    ensures Join(ws, sep) != "" && Join(ws, sep)[0] == ws[0][0]
  {
    if |ws| > 1 {
      assert Join(ws, sep) == ws[0] + ([sep] + Join(ws[1..], sep));
    }
  }

  /** `s.slice(0, s.length - 1)`: the string without its last character. */
  function DropLast(s: string): (r: string)
    ensures s != "" ==> r + [s[|s| - 1]] == s
    ensures s == "" ==> r == ""
  {
    if |s| == 0 then "" else s[..|s| - 1]
  }

  /** `s.substring(0, n)`: at most the first `n` characters. */
  function Head(s: string, n: nat): string {
    if n <= |s| then s[..n] else s
  }

  /** The repository's `startsWith(o, search)` helper, called without a
      position: it compares `o.substring(0, search.length)` with `search`. */
  function StartsWith(s: string, prefix: string): (r: bool)
    ensures r <==> prefix <= s
  {
    Head(s, |prefix|) == prefix
  }

  function Digit(d: nat): char
    requires d < 10
  {
    "0123456789"[d]
  }

  /** The decimal rendering JavaScript gives a non-negative integer in a template literal. */
  function Decimal(n: nat): (r: string)
    ensures |r| >= 1
    ensures n < 10 <==> |r| == 1
  {
    if n < 10 then [Digit(n)] else Decimal(n / 10) + [Digit(n % 10)]
  }

  /** Distinct numbers have distinct decimal renderings. */
  lemma {:induction false} DecimalInjective(a: nat, b: nat)
    requires Decimal(a) == Decimal(b)
    ensures a == b
  {
    if a >= 10 && b >= 10 {
      var da, db := Decimal(a), Decimal(b);
      assert da[..|da| - 1] == Decimal(a / 10);
      assert db[..|db| - 1] == Decimal(b / 10);
      DecimalInjective(a / 10, b / 10);
      assert Digit(a % 10) == da[|da| - 1] == db[|db| - 1] == Digit(b % 10);
    }
  }

  /** The type name the kernel compares an array argument against: `vec${length}`. */
  function VecName(n: nat): string {
    "vec" + Decimal(n)
  }

  /** `vec${n}` names one of the GLSL vector types exactly for n in 2..4. */
  lemma VecNameKnown(n: nat)
    ensures VecName(n) == "vec2" <==> n == 2
    ensures VecName(n) == "vec3" <==> n == 3
    ensures VecName(n) == "vec4" <==> n == 4
  {
    forall m: nat | m < 10 && VecName(n) == VecName(m)
      ensures n == m
    {
      assert Decimal(n) == VecName(n)[3..] == VecName(m)[3..] == Decimal(m);
      DecimalInjective(n, m);
    }
    assert VecName(2) == "vec2" && VecName(3) == "vec3" && VecName(4) == "vec4";
  }
}

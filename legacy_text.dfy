/**
  The trace lines of the older version (`cmake_profile_stat.py`): cmake's plain
  `--trace` output `(time) (nesting) file(line):  code`, the trace info taken from it, its
  printed form and the key a top-level trace is filed under.
*/
module LegacyText {
  import opened Wrappers

  /** `CmakeTraceInfo`; all three parts are the matched text. */
  datatype LegacyInfo = LegacyInfo(file: string, line: string, code: string)

  /** `__str__`: `file(line): code`. */
  function Str(ti: LegacyInfo): string
  {
    ti.file + "(" + ti.line + "): " + ti.code
  }

  function Reverse(s: string): (r: string)
    ensures |r| == |s| && forall i :: 0 <= i < |s| ==> r[i] == s[|s| - 1 - i]
  {
    if s == [] then [] else Reverse(s[1..]) + [s[0]]
  }

  /** `key()`: the line text followed by the file name reversed. */
  function Key(ti: LegacyInfo): string
  {
    ti.line + Reverse(ti.file)
  }

  predicate IsDigit(c: char)
  {
    '0' <= c <= '9'
  }

  predicate Digits(s: string)
  {
    s != [] && forall i :: 0 <= i < |s| ==> IsDigit(s[i])
  }

  /**
    Keys identify a trace's file and line as long as line texts are numbers and file
    names end in something other than a digit (as `CMakeLists.txt` and `*.cmake` do):
    the key's leading digits are then exactly the line.
  */
  lemma KeyIdentifies(a: LegacyInfo, b: LegacyInfo)
    requires Digits(a.line) && Digits(b.line)
    requires a.file != [] && b.file != [] && !IsDigit(a.file[|a.file| - 1]) && !IsDigit(b.file[|b.file| - 1])
    requires Key(a) == Key(b)
    ensures a.line == b.line && a.file == b.file
  {
    var ka, kb := Key(a), Key(b);
    var n := if |a.line| < |b.line| then |a.line| else |b.line|;
    assert IsDigit(ka[n]) <==> n < |a.line| by {
      if n == |a.line| {
        assert ka[n] == Reverse(a.file)[0] == a.file[|a.file| - 1];
      }
    }
    assert IsDigit(kb[n]) <==> n < |b.line| by {
      if n == |b.line| {
        assert kb[n] == Reverse(b.file)[0] == b.file[|b.file| - 1];
      }
    }
    assert a.line == ka[..|a.line|] && b.line == kb[..|b.line|];
    assert Reverse(a.file) == ka[|a.line|..] && Reverse(b.file) == kb[|b.line|..];
    forall i | 0 <= i < |a.file| ensures a.file[i] == b.file[i] {
      assert a.file[i] == Reverse(a.file)[|a.file| - 1 - i];
    }
  }

  /** Without that condition two different traces can share a key. */
  lemma KeyCollision()
    ensures Key(LegacyInfo("a1", "2", "x")) == Key(LegacyInfo("a", "21", "y")) == "21a"
  {
    assert Reverse("a1") == "1a";
    assert Reverse("a") == "a";
  }

  // ---------------------------------------------------------------------------
  // The line grammar `^\(([^)]*)\) \(([^)]*)\) ([^(]*)\(([^)]*)\):  (.*)$`

  /** The five groups: time, nesting, file, line and code. */
  datatype Groups = Groups(time: string, nesting: string, file: string, line: string, code: string)

  /** The text before the first `c` and the text after it. */
  function SplitAt(s: string, c: char): (r: Option<(string, string)>)
    ensures r.None? <==> c !in s
    ensures r.Some? ==> s == r.value.0 + [c] + r.value.1 && c !in r.value.0
  {
    if s == [] then None
    else if s[0] == c then Some(([], s[1..]))
    else match SplitAt(s[1..], c)
      case None => None
      case Some(p) =>
        assert s == [s[0]] + s[1..];
        Some(([s[0]] + p.0, p.1))
  }

  /** `(.*)$`: the rest of the line, allowing one final newline. */
  function Tail(rest: string): Option<string>
  {
    if '\n' !in rest then Some(rest)
    else if rest[|rest| - 1] == '\n' && '\n' !in rest[..|rest| - 1] then Some(rest[..|rest| - 1])
    else None
  }

  /** `:  (.*)$`, after the line number's closing parenthesis. */
  function MatchCode(r: string): Option<string>
  {
    if |r| < 3 || r[..3] != ":  " then None else Tail(r[3..])
  }

  /** ` file(line):  code`, after the nesting's closing parenthesis. */
  function MatchLocation(r: string): Option<(string, string, string)>
  {
    if |r| < 1 || r[0] != ' ' then None
    else match SplitAt(r[1..], '(')
      case None => None
      case Some(p3) =>
        match SplitAt(p3.1, ')')
        case None => None
        case Some(p4) =>
          match MatchCode(p4.1)
          case None => None
          case Some(code) => Some((p3.0, p4.0, code))
  }

  /** `matcher.match(line)`. */
  function MatchTraceLine(l: string): Option<Groups>
  {
    if l == [] || l[0] != '(' then None
    else match SplitAt(l[1..], ')')
      case None => None
      case Some(p1) =>
        var r1 := p1.1;
        if |r1| < 2 || r1[..2] != " (" then None
        else match SplitAt(r1[2..], ')')
          case None => None
          case Some(p2) =>
            match MatchLocation(p2.1)
            case None => None
            case Some(loc) => Some(Groups(p1.0, p2.0, loc.0, loc.1, loc.2))
  }

  function Newline(nl: bool): string
  {
    if nl then "\n" else ""
  }

  function CodePart(code: string, nl: bool): string
  {
    ":  " + code + Newline(nl)
  }

  function LocationPart(file: string, line: string, code: string, nl: bool): string
  {
    " " + file + "(" + line + ")" + CodePart(code, nl)
  }

  /** The line cmake writes for a set of groups, with or without its final newline. */
  function RenderLine(g: Groups, nl: bool): string
  {
    "(" + g.time + ")" + " (" + g.nesting + ")" + LocationPart(g.file, g.line, g.code, nl)
  }

  /** The groups can hold what the pattern lets them hold. */
  predicate Matchable(g: Groups)
  {
    ')' !in g.time && ')' !in g.nesting && '(' !in g.file && ')' !in g.line && '\n' !in g.code
  }

  lemma {:induction false} SplitAtPrefix(a: string, c: char, b: string)
    requires c !in a
    ensures SplitAt(a + [c] + b, c) == Some((a, b))
  {
    var s := a + [c] + b;
    if a == [] {
      assert s == [c] + b;
    } else {
      assert s[0] == a[0] && s[1..] == a[1..] + [c] + b;
      SplitAtPrefix(a[1..], c, b);
      assert [a[0]] + a[1..] == a;
    }
  }

  lemma MatchCodeRender(code: string, nl: bool)
    requires '\n' !in code
    ensures MatchCode(CodePart(code, nl)) == Some(code)
  {
    var r := CodePart(code, nl);
    assert r[..3] == ":  ";
    assert r[3..] == code + Newline(nl);
    if nl {
      var rest := code + Newline(nl);
      assert rest[|rest| - 1] == '\n';
      assert rest[..|rest| - 1] == code;
      assert Tail(rest) == Some(code);
    } else {
      assert r[3..] == code;
      assert Tail(code) == Some(code);
    }
  }

  lemma MatchLocationRender(file: string, line: string, code: string, nl: bool)
    requires '(' !in file && ')' !in line && '\n' !in code
    ensures MatchLocation(LocationPart(file, line, code, nl)) == Some((file, line, code))
  {
    var r4 := CodePart(code, nl);
    var r3 := line + [')'] + r4;
    var r := LocationPart(file, line, code, nl);
    assert r[1..] == file + ['('] + r3;
    SplitAtPrefix(file, '(', r3);
    SplitAtPrefix(line, ')', r4);
    MatchCodeRender(code, nl);
  }

  /** The pieces the pattern cuts a rendered line into. */
  lemma Cut(t: string, n: string, tail: string)
    ensures var l, r1 := "(" + t + ")" + " (" + n + ")" + tail, " (" + n + ")" + tail;
            && l != [] && l[0] == '(' && l[1..] == t + [')'] + r1
            && |r1| >= 2 && r1[..2] == " (" && r1[2..] == n + [')'] + tail
  {
    var l, r1 := "(" + t + ")" + " (" + n + ")" + tail, " (" + n + ")" + tail;
    assert l == "(" + (t + [')'] + r1);
    assert r1 == " (" + (n + [')'] + tail);
  }

  /** A line of matchable groups, with or without its final newline, is matched and its
      groups are read back unchanged. */
  lemma MatchRender(g: Groups, nl: bool)
    requires Matchable(g)
    ensures MatchTraceLine(RenderLine(g, nl)) == Some(g)
  {
    var r2 := LocationPart(g.file, g.line, g.code, nl);
    var r1 := " (" + g.nesting + ")" + r2;
    Cut(g.time, g.nesting, r2);
    SplitAtPrefix(g.time, ')', r1);
    SplitAtPrefix(g.nesting, ')', r2);
    MatchLocationRender(g.file, g.line, g.code, nl);
  }

  lemma MatchCodeIsRender(r: string) returns (nl: bool)
    requires MatchCode(r).Some?
    ensures '\n' !in MatchCode(r).value && r == CodePart(MatchCode(r).value, nl)
  {
    var rest := r[3..];
    assert r == ":  " + rest;
    nl := '\n' in rest;
    if nl {
      assert rest == rest[..|rest| - 1] + "\n";
    }
  }

  /** The location part cut at its parentheses, put back together. */
  lemma AssembleLocation(r: string, f: string, rest: string, ln: string, cp: string)
    requires r != [] && r[0] == ' ' && r[1..] == f + "(" + rest && rest == ln + ")" + cp
    ensures r == " " + f + "(" + ln + ")" + cp
  {
    assert r == " " + r[1..];
  }

  lemma MatchLocationIsRender(r: string) returns (nl: bool)
    requires MatchLocation(r).Some?
    ensures var loc := MatchLocation(r).value;
            '(' !in loc.0 && ')' !in loc.1 && '\n' !in loc.2 && r == LocationPart(loc.0, loc.1, loc.2, nl)
  {
    var p3 := SplitAt(r[1..], '(').value;
    var p4 := SplitAt(p3.1, ')').value;
    var code := MatchCode(p4.1).value;
    assert MatchLocation(r).value == (p3.0, p4.0, code);
    nl := MatchCodeIsRender(p4.1);
    AssembleLocation(r, p3.0, p3.1, p4.0, CodePart(code, nl));
  }

  /** A line cut at its two closing parentheses, put back together. */
  lemma Assemble(l: string, t: string, r1: string, n: string, tail: string)
    requires l != [] && l[0] == '(' && l[1..] == t + ")" + r1
    requires |r1| >= 2 && r1[..2] == " (" && r1[2..] == n + ")" + tail
    ensures l == "(" + t + ")" + " (" + n + ")" + tail
  {
    assert l == "(" + l[1..];
    assert r1 == " (" + r1[2..];
  }

  /** Conversely, every matched line is the rendering of its groups, and the groups hold
      only what the pattern lets them hold. */
  lemma MatchIsRender(l: string) returns (nl: bool)
    requires MatchTraceLine(l).Some?
    ensures Matchable(MatchTraceLine(l).value) && l == RenderLine(MatchTraceLine(l).value, nl)
  {
    var p1 := SplitAt(l[1..], ')').value;
    var r1 := p1.1;
    var p2 := SplitAt(r1[2..], ')').value;
    var loc := MatchLocation(p2.1).value;
    assert MatchTraceLine(l).value == Groups(p1.0, p2.0, loc.0, loc.1, loc.2);
    nl := MatchLocationIsRender(p2.1);
    Assemble(l, p1.0, r1, p2.0, LocationPart(loc.0, loc.1, loc.2, nl));
  }
}

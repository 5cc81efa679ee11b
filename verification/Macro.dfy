/** Macro scripts: parsing one step per line, printing, and running them on the HID bridge. */
module Macro {
  import opened Wrappers
  import opened BitStream
  import H = Hid

  datatype Step = Text(text: string) | Chord(codes: seq<string>) | Delay(ms: nat)

  const MAX_INT: nat := 0x7fff_ffff_ffff_ffff

  /** Unicode white space, as the string library trims it. */
  predicate IsSpace(c: char) {
    '\t' <= c <= '\r' || c == ' ' || c == '\U{0085}' || c == '\U{00A0}' || c == '\U{1680}'
        || '\U{2000}' <= c <= '\U{200A}'
    || c == '\U{2028}' || c == '\U{2029}' || c == '\U{202F}' || c == '\U{205F}' || c == '\U{3000}'
  }

  function TrimLeft(s: string): string {
    if s != "" && IsSpace(s[0]) then TrimLeft(s[1..]) else s
  }

  function TrimRight(s: string): string {
    if s != "" && IsSpace(s[|s| - 1]) then TrimRight(s[..|s| - 1]) else s
  }

  function Trim(s: string): string { TrimRight(TrimLeft(s)) }

  /** The pieces between separators; a string without one is a single piece. */
  function Split(s: string, sep: char): (p: seq<string>)
    ensures p != []
  {
    if s == "" then [""]
    else
      var p := Split(s[1..], sep);
      if s[0] == sep then [""] + p else [[s[0]] + p[0]] + p[1..]
  }

  function Join(p: seq<string>, sep: char): string
    requires p != []
  {
    if |p| == 1 then p[0] else p[0] + [sep] + Join(p[1..], sep)
  }

  /** The text before and after the first separator. */
  function Cut(s: string, sep: char): Option<(string, string)> {
    if s == "" then None
    else if s[0] == sep then Some(("", s[1..]))
    else match Cut(s[1..], sep)
      case None => None
      case Some((a, b)) => Some(([s[0]] + a, b))
  }

  // --- decimal numbers ---

  predicate IsDigit(c: char) { '0' <= c <= '9' }

  function Digits(s: string): (v: Option<nat>) {
    if s == "" then Some(0)
    else match Digits(s[..|s| - 1])
      case None => None
      case Some(v) => if IsDigit(s[|s| - 1]) then Some(10 * v + (s[|s| - 1] - '0') as nat) else None
  }

  /** A signed decimal that fits 64 bits; None is any error. */
  function Atoi(s: string): Option<int> {
    var neg := s != "" && s[0] == '-';
    var d := if s != "" && (s[0] == '-' || s[0] == '+') then s[1..] else s;
    if d == "" then None
    else match Digits(d)
      case None => None
      case Some(v) => if v > (if neg then MAX_INT + 1 else MAX_INT) then None else Some(if neg then 0 - v else v)
  }

  function Decimal(n: nat): (s: string)
    ensures s != ""
  {
    (if n < 10 then "" else Decimal(n / 10)) + ['0' + (n % 10) as char]
  }

  // --- what the string functions promise ---

  /** Trimming cuts white space, all of it, from both ends and nothing else. */
  lemma TrimIs(s: string)
    ensures exists i, j :: 0 <= i <= j <= |s| && Trim(s) == s[i..j]
              && (forall k :: 0 <= k < i || j <= k < |s| ==> IsSpace(s[k]))
    ensures Trim(s) != "" ==> !IsSpace(Trim(s)[0]) && !IsSpace(Trim(s)[|Trim(s)| - 1])
  {
    var i := LeftCut(s);
    var j := RightCut(s[i..]);
    assert s[i..][..j] == s[i..i + j];
    assert forall k :: i + j <= k < |s| ==> s[k] == s[i..][k - i];
    if Trim(s) != "" { assert Trim(s)[0] == s[i..][0]; }
  }

  lemma {:induction false} LeftCut(s: string) returns (i: nat)
    ensures i <= |s| && TrimLeft(s) == s[i..] && (forall k :: 0 <= k < i ==> IsSpace(s[k]))
    ensures i < |s| ==> !IsSpace(s[i])
  {
    i := 0;
    if s != "" && IsSpace(s[0]) {
      var j := LeftCut(s[1..]);
      i := j + 1;
      assert s[1..][j..] == s[i..];
      assert forall k :: 1 <= k < i ==> s[k] == s[1..][k - 1];
    }
  }

  lemma {:induction false} RightCut(s: string) returns (j: nat)
    ensures j <= |s| && TrimRight(s) == s[..j] && (forall k :: j <= k < |s| ==> IsSpace(s[k]))
    ensures j > 0 ==> !IsSpace(s[j - 1])
  {
    j := |s|;
    if s != "" && IsSpace(s[|s| - 1]) {
      j := RightCut(s[..|s| - 1]);
      assert s[..|s| - 1][..j] == s[..j];
    } else {
      assert s[..|s|] == s;
    }
  }

  /** The pieces hold no separator and joined by it are the string. */
  lemma {:induction false} SplitIs(s: string, sep: char)
    ensures Join(Split(s, sep), sep) == s
    ensures forall i :: 0 <= i < |Split(s, sep)| ==> sep !in Split(s, sep)[i]
  {
    if s != "" {
      var p := Split(s[1..], sep);
      SplitIs(s[1..], sep);
      assert s == [s[0]] + s[1..];
      if s[0] == sep {
        assert ([""] + p)[1..] == p;
      } else {
        var q := [[s[0]] + p[0]] + p[1..];
        assert q[1..] == p[1..] && Join(q, sep) == [s[0]] + Join(p, sep);
      }
    }
  }

  /** The cut is at the first separator. */
  lemma {:induction false} CutIs(s: string, sep: char)
    ensures Cut(s, sep) == None <==> sep !in s
    ensures Cut(s, sep).Some? ==>
              var (a, b) := Cut(s, sep).value; sep !in a && s == a + [sep] + b
  {
    if s != "" {
      CutIs(s[1..], sep);
      assert s == [s[0]] + s[1..];
    }
  }

  /** Only digits behind an optional sign make a number. */
  lemma AtoiIs(s: string)
    ensures Atoi(s).Some? ==>
              var d := if s != "" && (s[0] == '-' || s[0] == '+') then s[1..] else s;
              d != "" && (forall i :: 0 <= i < |d| ==> IsDigit(d[i])) && (Atoi(s).value < 0 ==> s[0] == '-')
  {
    var d := if s != "" && (s[0] == '-' || s[0] == '+') then s[1..] else s;
    DigitsOnly(d);
  }

  lemma {:induction false} DigitsOnly(s: string)
    ensures Digits(s).Some? <==> forall i :: 0 <= i < |s| ==> IsDigit(s[i])
  {
    if s != "" { DigitsOnly(s[..|s| - 1]); }
  }

  // --- parsing ---

  datatype Reason = NoColon | EmptyChord | BadDelay | UnknownStep

  datatype Line = Skip | Ok(step: Step) | Bad(reason: Reason)

  /** The trimmed nonempty pieces. */
  function Codes(p: seq<string>): seq<string> {
    if p == [] then []
    else Codes(p[..|p| - 1]) + if Trim(p[|p| - 1]) != "" then [Trim(p[|p| - 1])] else []
  }

  /** What one line of a script means. */
  function ParseLine(line: string): Line {
    var ln := Trim(line);
    if ln == "" || ln[0] == '#' then Skip
    else match Cut(ln, ':')
      case None => Bad(NoColon)
      case Some((key, val)) =>
        var kind := Trim(key);
        if kind == "text" then Line.Ok(Text(val))
        else if kind == "key" then Line.Ok(Chord([Trim(val)]))
        else if kind == "chord" then
          var codes := Codes(Split(val, '+'));
          if codes == [] then Bad(EmptyChord) else Line.Ok(Chord(codes))
        else if kind == "delay" then
          match Atoi(Trim(val))
          case None => Bad(BadDelay)
          case Some(ms) => if ms < 0 then Bad(BadDelay) else Line.Ok(Delay(ms))
        else Bad(UnknownStep)
  }

  datatype Error = AtLine(line: nat, reason: Reason) | MacroIsEmpty

  /** The steps of the lines, up to the first bad one. */
  function ParseLines(lines: seq<string>): Result<seq<Step>, Error> {
    if lines == [] then Result.Ok([])
    else match ParseLines(lines[..|lines| - 1])
      case Err(e) => Err(e)
      case Ok(steps) =>
        match ParseLine(lines[|lines| - 1])
        case Skip => Result.Ok(steps)
        case Ok(step) => Result.Ok(steps + [step])
        case Bad(reason) => Err(AtLine(|lines|, reason))
  }

  function Parse(script: string): Result<seq<Step>, Error> {
    match ParseLines(Split(script, '\n'))
    case Err(e) => Err(e)
    case Ok(steps) => if steps == [] then Err(MacroIsEmpty) else Result.Ok(steps)
  }

  // --- what the lines mean ---

  /** Whitespace lines and comments are passed over, and so is nothing else. */
  lemma PassedIs(line: string)
    ensures Passed(line) <==> Trim(line) == "" || Trim(line)[0] == '#'
  {
    hide Trim; hide Cut; hide Atoi; hide Codes; hide Split;
  }

  /** A line of a known kind, whatever the white space around kind and line. */
  lemma LineMeans(line: string, kind: string, val: string)
    requires Trim(line) != "" && Trim(line)[0] != '#' && Cut(Trim(line), ':').Some?
    requires var (k, v) := Cut(Trim(line), ':').value; Trim(k) == kind && v == val
    ensures kind == "text" ==> ParseLine(line) == Line.Ok(Text(val))
    ensures kind == "key" ==> ParseLine(line) == Line.Ok(Chord([Trim(val)]))
    ensures kind == "chord" ==>
              var cs := Codes(Split(val, '+'));
              ParseLine(line) == if cs == [] then Bad(EmptyChord) else Line.Ok(Chord(cs))
    ensures kind == "delay" ==>
              ParseLine(line) == match Atoi(Trim(val))
                case Some(ms) => if ms < 0 then Bad(BadDelay) else Line.Ok(Delay(ms))
                case None => Bad(BadDelay)
    ensures kind !in ["text", "key", "chord", "delay"] ==> ParseLine(line) == Bad(UnknownStep)
  {
    hide Trim; hide Cut; hide Atoi; hide Codes; hide Split;
    assert "text" != "key" && "text" != "chord" && "text" != "delay" && "key" != "chord" && "key" != "delay";
    assert "chord"[0] != "delay"[0];
  }

  /** A line without a colon that is not passed over is an error. */
  lemma NoColonLine(line: string)
    requires Trim(line) != "" && Trim(line)[0] != '#'
    ensures ':' !in Trim(line) <==> ParseLine(line) == Bad(NoColon)
  {
    CutIs(Trim(line), ':');
    hide Trim; hide Cut; hide Atoi; hide Codes; hide Split;
  }

  /** Where the pieces of p that are not blank are, in order. */
  ghost predicate ListsCodes(p: seq<string>, at: seq<nat>, codes: seq<string>) {
    && |codes| == |at|
    && (forall k :: 0 <= k < |at| ==> at[k] < |p| && codes[k] == Trim(p[at[k]]) && codes[k] != "")
    && (forall j, k :: 0 <= j < k < |at| ==> at[j] < at[k])
    && (forall i :: 0 <= i < |p| && Trim(p[i]) != "" ==> i in at)
  }

  lemma CodesMore(p: seq<string>, c: string, at: seq<nat>, codes: seq<string>)
    requires ListsCodes(p, at, codes)
    ensures Trim(c) == "" ==> ListsCodes(p + [c], at, codes)
    ensures Trim(c) != "" ==> ListsCodes(p + [c], at + [|p|], codes + [Trim(c)])
  {
    hide Trim;
    var q := p + [c];
    assert forall i :: 0 <= i < |p| ==> q[i] == p[i];
    if Trim(c) != "" {
      var more: seq<nat> := at + [|p|];
      forall i | 0 <= i < |q| && Trim(q[i]) != "" ensures i in more {
        if i < |p| { assert i in at; } else { assert more[|at|] == i; }
      }
    }
  }

  /** The codes of a chord are its pieces in order, trimmed, without the blank ones. */
  lemma {:induction false} CodesAre(p: seq<string>) returns (at: seq<nat>)
    ensures ListsCodes(p, at, Codes(p))
  {
    hide Trim; hide ListsCodes;
    if p == [] {
      at := [];
      NoCodes();
    } else {
      var init, c := p[..|p| - 1], p[|p| - 1];
      at := CodesAre(init);
      CodesMore(init, c, at, Codes(init));
      assert p == init + [c] && Codes(init) + [] == Codes(init);
      if Trim(c) != "" { at := at + [|init|]; }
    }
  }

  lemma NoCodes()
    ensures ListsCodes([], [], Codes([]))
  {}

  predicate AllPassed(lines: seq<string>) { forall i :: 0 <= i < |lines| ==> Passed(lines[i]) }

  /** A script of nothing but passed lines is the error of an empty macro, and only such a script. */
  lemma EmptyMacro(script: string)
    ensures Parse(script) == Err(MacroIsEmpty) <==> AllPassed(Split(script, '\n'))
  {
    hide *;
    NoSteps(Split(script, '\n'));
    NothingParsed(script);
  }

  lemma NothingParsed(script: string)
    ensures Parse(script) == Err(MacroIsEmpty) <==> ParseLines(Split(script, '\n')) == Result.Ok([])
  {
    ErrorNamesFirstBadLine(Split(script, '\n'), 0, NoColon);
    hide Split; hide ParseLines;
    if ParseLines(Split(script, '\n')).Ok? {
      var steps := ParseLines(Split(script, '\n')).value;
      assert steps == [] ==> Parse(script) == Err(MacroIsEmpty);
    }
  }

  lemma {:induction false} NoSteps(lines: seq<string>)
    ensures ParseLines(lines) == Result.Ok([]) <==> AllPassed(lines)
  {
    hide ParseLine;
    if lines != [] { NoSteps(lines[..|lines| - 1]); }
  }

  // --- blank lines and errors ---

  /** A line the parser passes over. */
  predicate Passed(line: string) { ParseLine(line) == Skip }

  /** The script is bad at its first bad line, and only there. */
  lemma {:induction false} ErrorNamesFirstBadLine(lines: seq<string>, n: nat, reason: Reason)
    ensures ParseLines(lines) == Err(AtLine(n, reason)) <==>
      && 1 <= n <= |lines| && ParseLine(lines[n - 1]) == Bad(reason)
      && forall i :: 0 <= i < n - 1 ==> !ParseLine(lines[i]).Bad?
    ensures ParseLines(lines) != Err(MacroIsEmpty)
  {
    hide ParseLine;
    if lines != [] {
      var init := lines[..|lines| - 1];
      ErrorNamesFirstBadLine(init, n, reason);
      NoErrorNoBadLine(init);
    }
  }

  lemma {:induction false} NoErrorNoBadLine(lines: seq<string>)
    ensures ParseLines(lines).Ok? <==> forall i :: 0 <= i < |lines| ==> !ParseLine(lines[i]).Bad?
  {
    hide ParseLine;
    if lines != [] {
      NoErrorNoBadLine(lines[..|lines| - 1]);
    }
  }

  /** Inserting a blank or comment line changes no step; a later error only moves down by one line. */
  lemma {:induction false} BlankLinesChangeNothing(a: seq<string>, blank: string, b: seq<string>)
    requires Passed(blank)
    ensures ParseLines(a + [blank] + b) == match ParseLines(a + b)
              case Ok(steps) => Result.Ok(steps)
              case Err(MacroIsEmpty) => Err(MacroIsEmpty)
              case Err(AtLine(n, reason)) => Err(AtLine(if n <= |a| then n else n + 1, reason))
    decreases |b|
  {
    hide ParseLine;
    if b == [] {
      assert (a + [blank] + b)[..|a|] == a && a + b == a;
      if ParseLines(a).Err? && ParseLines(a).error.AtLine? {
        ErrorNamesFirstBadLine(a, ParseLines(a).error.line, ParseLines(a).error.reason);
      }
    } else {
      var c := b[..|b| - 1];
      assert (a + [blank] + b)[..|a + [blank] + b| - 1] == a + [blank] + c;
      assert (a + b)[..|a + b| - 1] == a + c;
      BlankLinesChangeNothing(a, blank, c);
    }
  }

  // --- printing ---

  function Print(step: Step): string
    requires Canonical(step)
  {
    match step
    case Text(text) => "text:" + text
    case Chord(codes) => "chord:" + Join(codes, '+')
    case Delay(ms) => "delay:" + Decimal(ms)
  }

  /** Trimmed, nonempty, and free of the separators. */
  predicate CleanCode(c: string) { c != "" && !IsSpace(c[0]) && !IsSpace(c[|c| - 1]) && '+' !in c && '\n' !in c }

  predicate Canonical(step: Step) {
    match step
    case Text(text) => '\n' !in text && (text != "" ==> !IsSpace(text[|text| - 1]))
    case Chord(codes) => codes != [] && forall i :: 0 <= i < |codes| ==> CleanCode(codes[i])
    case Delay(ms) => ms <= MAX_INT
  }

  function PrintAll(steps: seq<Step>): (lines: seq<string>)
    requires forall i :: 0 <= i < |steps| ==> Canonical(steps[i])
    ensures |lines| == |steps|
  {
    seq(|steps|, i requires 0 <= i < |steps| => Print(steps[i]))
  }

  lemma TrimClean(s: string)
    requires s != "" && !IsSpace(s[0]) && !IsSpace(s[|s| - 1])
    ensures Trim(s) == s
  {}

  lemma {:induction false} SplitPiece(a: string, rest: string, sep: char)
    requires sep !in a
    ensures Split(a, sep) == [a]
    ensures Split(a + [sep] + rest, sep) == [a] + Split(rest, sep)
    ensures Cut(a + [sep] + rest, sep) == Some((a, rest))
  {
    if a == "" {
      assert a + [sep] + rest == [sep] + rest && ([sep] + rest)[1..] == rest;
    } else {
      SplitPiece(a[1..], rest, sep);
      assert a == [a[0]] + a[1..];
      assert (a + [sep] + rest)[1..] == a[1..] + [sep] + rest;
      assert (a + [sep] + rest)[0] == a[0];
    }
  }

  lemma {:induction false} SplitJoin(p: seq<string>, sep: char)
    requires p != [] && forall i :: 0 <= i < |p| ==> sep !in p[i]
    ensures Split(Join(p, sep), sep) == p
  {
    if |p| == 1 {
      SplitPiece(p[0], "", sep);
      assert p == [p[0]];
    } else {
      SplitJoin(p[1..], sep);
      SplitPiece(p[0], Join(p[1..], sep), sep);
      assert p == [p[0]] + p[1..];
    }
  }

  lemma {:induction false} JoinEnds(p: seq<string>, sep: char)
    requires p != [] && forall i :: 0 <= i < |p| ==> CleanCode(p[i])
    ensures var s := Join(p, sep); s != "" && !IsSpace(s[|s| - 1])
    ensures sep != '\n' ==> '\n' !in Join(p, sep)
  {
    if |p| > 1 {
      assert forall i :: 0 <= i < |p[1..]| ==> p[1..][i] == p[i + 1];
      JoinEnds(p[1..], sep);
    }
  }

  lemma {:induction false} CodesClean(p: seq<string>)
    requires forall i :: 0 <= i < |p| ==> CleanCode(p[i])
    ensures Codes(p) == p
  {
    if p != [] {
      CodesClean(p[..|p| - 1]);
      TrimClean(p[|p| - 1]);
      hide Trim;
      assert p == p[..|p| - 1] + [p[|p| - 1]];
    }
  }

  lemma {:induction false} DecimalRoundTrip(n: nat)
    ensures Digits(Decimal(n)) == Some(n)
    ensures forall i :: 0 <= i < |Decimal(n)| ==> IsDigit(Decimal(n)[i])
  {
    if n >= 10 {
      DecimalRoundTrip(n / 10);
      assert Decimal(n)[..|Decimal(n)| - 1] == Decimal(n / 10);
    } else {
      assert Decimal(n) == ['0' + n as char];
      assert Decimal(n)[..0] == "";
    }
  }

  lemma AtoiDecimal(n: nat)
    requires n <= MAX_INT
    ensures Trim(Decimal(n)) == Decimal(n) && Atoi(Decimal(n)) == Some(n)
  {
    DecimalRoundTrip(n);
    hide Decimal; hide Digits;
    TrimClean(Decimal(n));
    hide Trim;
  }

  predicate CleanKind(kind: string) {
    kind != "" && !IsSpace(kind[0]) && !IsSpace(kind[|kind| - 1]) && ':' !in kind && kind[0] != '#'
  }

  lemma Kinds()
    ensures CleanKind("text") && CleanKind("chord") && CleanKind("delay")
  {}

  lemma LineParts(kind: string, val: string)
    requires CleanKind(kind) && (val == "" || !IsSpace(val[|val| - 1]))
    ensures var ln := kind + [':'] + val;
            Trim(ln) == ln && ln != "" && ln[0] != '#' && Cut(ln, ':') == Some((kind, val)) && Trim(kind) == kind
  {
    SplitPiece(kind, val, ':');
    TrimClean(kind);
    hide Cut;
    TrimClean(kind + [':'] + val);
  }

  lemma PrintedText(text: string)
    requires Canonical(Text(text))
    ensures '\n' !in Print(Text(text)) && ParseLine(Print(Text(text))) == Line.Ok(Text(text))
  {
    Kinds();
    PrintText(text);
    hide *;
    LineParts("text", text);
    LineMeans(Print(Text(text)), "text", text);
  }

  lemma PrintText(text: string)
    requires Canonical(Text(text))
    ensures Print(Text(text)) == "text" + [':'] + text && '\n' !in "text" + [':'] + text
    ensures text == "" || !IsSpace(text[|text| - 1])
  {
    hide IsSpace;
  }

  lemma PrintedChord(codes: seq<string>)
    requires Canonical(Chord(codes))
    ensures '\n' !in Print(Chord(codes)) && ParseLine(Print(Chord(codes))) == Line.Ok(Chord(codes))
  {
    Kinds();
    CanonicalCodes(codes);
    hide *;
    var s := Join(codes, '+');
    LineParts("chord", s);
    PrintChord(codes);
    LineMeans(Print(Chord(codes)), "chord", s);
  }

  lemma CanonicalCodes(codes: seq<string>)
    requires Canonical(Chord(codes))
    ensures var s := Join(codes, '+');
            && codes != [] && s != "" && !IsSpace(s[|s| - 1]) && '\n' !in "chord" + [':'] + s
            && Split(s, '+') == codes && Codes(codes) == codes
  {
    JoinEnds(codes, '+');
    SplitJoin(codes, '+');
    CodesClean(codes);
    hide Join; hide Split; hide Codes;
  }

  lemma PrintChord(codes: seq<string>)
    requires Canonical(Chord(codes))
    ensures Print(Chord(codes)) == "chord" + [':'] + Join(codes, '+')
  {}

  lemma PrintedDelay(ms: nat)
    requires Canonical(Delay(ms))
    ensures '\n' !in Print(Delay(ms)) && ParseLine(Print(Delay(ms))) == Line.Ok(Delay(ms))
  {
    Kinds();
    DecimalText(ms);
    AtoiDecimal(ms);
    hide *;
    var s := Decimal(ms);
    LineParts("delay", s);
    PrintDelay(ms);
    LineMeans(Print(Delay(ms)), "delay", s);
  }

  lemma DecimalText(ms: nat)
    ensures !IsSpace(Decimal(ms)[|Decimal(ms)| - 1]) && '\n' !in "delay" + [':'] + Decimal(ms)
  {
    DecimalRoundTrip(ms);
    hide Decimal;
  }

  lemma PrintDelay(ms: nat)
    requires Canonical(Delay(ms))
    ensures Print(Delay(ms)) == "delay" + [':'] + Decimal(ms)
  {}

  lemma PrintedLine(step: Step)
    requires Canonical(step)
    ensures '\n' !in Print(step) && ParseLine(Print(step)) == Line.Ok(step)
  {
    hide ParseLine; hide Canonical; hide Print;
    match step {
      case Text(text) => PrintedText(text);
      case Chord(codes) => PrintedChord(codes);
      case Delay(ms) => PrintedDelay(ms);
    }
  }

  lemma {:induction false} ParsePrinted(steps: seq<Step>)
    requires forall i :: 0 <= i < |steps| ==> Canonical(steps[i])
    ensures ParseLines(PrintAll(steps)) == Result.Ok(steps)
  {
    hide ParseLine; hide Print; hide Canonical;
    if steps != [] {
      var init, last := steps[..|steps| - 1], steps[|steps| - 1];
      ParsePrinted(init);
      PrintedLine(last);
      assert PrintAll(steps)[..|steps| - 1] == PrintAll(init);
      assert steps == init + [last];
    }
  }

  /** Parsing the printed form of any nonempty list of canonical steps gives it back. */
  lemma MacroRoundTrip(steps: seq<Step>)
    requires steps != [] && forall i :: 0 <= i < |steps| ==> Canonical(steps[i])
    ensures Parse(Join(PrintAll(steps), '\n')) == Result.Ok(steps)
  {
    forall i | 0 <= i < |steps| ensures '\n' !in PrintAll(steps)[i] { PrintedLine(steps[i]); }
    hide Print; hide Canonical; hide ParseLines;
    SplitJoin(PrintAll(steps), '\n');
    ParsePrinted(steps);
  }

  // --- the methods ---

  method ParseCodes(val: string) returns (codes: seq<string>)
    ensures codes == Codes(Split(val, '+'))
  {
    hide Trim; hide Split;
    var pieces := Split(val, '+');
    codes := [];
    for i := 0 to |pieces|
      invariant codes == Codes(pieces[..i])
    {
      assert pieces[..i + 1][..i] == pieces[..i];
      var c := Trim(pieces[i]);
      if c != "" { codes := codes + [c]; }
    }
    assert pieces[..|pieces|] == pieces;
  }

  /** `parseMacro`: appends a step per line, and returns at the first bad line. */
  method ParseMacro(script: string) returns (r: Result<seq<Step>, Error>)
    ensures r == Parse(script)
  {
    hide Trim; hide Split; hide Atoi; hide Cut; hide Codes;
    var lines := Split(script, '\n');
    var steps := [];
    for i := 0 to |lines|
      invariant ParseLines(lines[..i]) == Result.Ok(steps)
    {
      assert lines[..i + 1][..i] == lines[..i] && lines[..i + 1][i] == lines[i];
      StopsAt(lines, i);
      var ln := Trim(lines[i]);
      if ln == "" || ln[0] == '#' { continue; }
      var kv := Cut(ln, ':');
      if kv == None { return Err(AtLine(i + 1, NoColon)); }
      var kind, val := Trim(kv.value.0), kv.value.1;
      if kind == "text" {
        steps := steps + [Text(val)];
      } else if kind == "key" {
        steps := steps + [Chord([Trim(val)])];
      } else if kind == "chord" {
        var codes := ParseCodes(val);
        if codes == [] { return Err(AtLine(i + 1, EmptyChord)); }
        steps := steps + [Chord(codes)];
      } else if kind == "delay" {
        var ms := Atoi(Trim(val));
        if ms == None || ms.value < 0 { return Err(AtLine(i + 1, BadDelay)); }
        steps := steps + [Delay(ms.value)];
      } else {
        return Err(AtLine(i + 1, UnknownStep));
      }
    }
    assert lines[..|lines|] == lines;
    if steps == [] { return Err(MacroIsEmpty); }
    return Result.Ok(steps);
  }

  lemma {:induction false} ErrorStays(lines: seq<string>, n: nat)
    requires n <= |lines| && ParseLines(lines[..n]).Err?
    ensures ParseLines(lines) == ParseLines(lines[..n])
    decreases |lines|
  {
    hide ParseLine;
    if n == |lines| {
      assert lines[..n] == lines;
    } else {
      assert lines[..|lines| - 1][..n] == lines[..n];
      ErrorStays(lines[..|lines| - 1], n);
    }
  }

  /** A bad line decides the whole script. */
  lemma StopsAt(lines: seq<string>, i: nat)
    requires i < |lines| && ParseLines(lines[..i]).Ok?
    ensures ParseLine(lines[i]).Bad? ==> ParseLines(lines) == Err(AtLine(i + 1, ParseLine(lines[i]).reason))
  {
    hide ParseLine;
    assert lines[..i + 1][..i] == lines[..i];
    if ParseLine(lines[i]).Bad? { ErrorStays(lines, i + 1); }
  }

  // --- running ---

  function StepReports(step: Step): seq<H.Report> {
    match step
    case Text(text) => H.TypeReports(text)
    case Chord(codes) => H.ChordReports(codes)
    case Delay(_) => []
  }

  /** The keyboard reports of a macro; delays write nothing. */
  function MacroReports(steps: seq<Step>): seq<H.Report> {
    if steps == [] then [] else MacroReports(steps[..|steps| - 1]) + StepReports(steps[|steps| - 1])
  }

  lemma {:induction false} MacroConcat(a: seq<Step>, b: seq<Step>)
    ensures MacroReports(a + b) == MacroReports(a) + MacroReports(b)
  {
    hide StepReports;
    if b == [] {
      assert a + b == a;
      assert MacroReports(a) + [] == MacroReports(a);
    } else {
      MacroConcat(a, b[..|b| - 1]);
      assert (a + b)[..|a + b| - 1] == a + b[..|b| - 1];
    }
  }

  /** Macros run their steps in order: texts are typed, chords pressed, delays write nothing. */
  lemma MacroReportsAre(a: seq<Step>, step: Step, b: seq<Step>)
    ensures MacroReports(a + [step] + b) == MacroReports(a) + MacroReports([step]) + MacroReports(b)
    ensures match step
            case Text(text) => MacroReports([step]) == H.TypeReports(text)
            case Chord(codes) => MacroReports([step]) == H.ChordReports(codes)
            case Delay(_) => MacroReports([step]) == []
  {
    MacroConcat(a + [step], b);
    MacroConcat(a, [step]);
    assert [step][..0] == [];
    hide H.TypeReports; hide H.ChordReports;
  }

  method RunMacro(h: H.HID, steps: seq<Step>)
    modifies h`kbd
    ensures h.kbd == old(h.kbd) + MacroReports(steps)
  {
    hide H.TypeReports; hide H.ChordReports;
    for i := 0 to |steps|
      invariant h.kbd == old(h.kbd) + MacroReports(steps[..i])
    {
      assert steps[..i + 1][..i] == steps[..i];
      match steps[i] {
        case Text(text) => h.Type(text);
        case Chord(codes) => h.Chord(codes);
        case Delay(_) =>
      }
    }
    assert steps[..|steps|] == steps;
  }
}

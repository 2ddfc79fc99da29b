/** The parts of Rust's string library the tenant file depends on. */
module Text {
  import opened Machine

  /** `char::is_ascii_whitespace` */
  predicate IsAsciiSpace(c: char) {
    c == ' ' || c == '\t' || c == '\n' || c == '\r' || c == '\U{C}'
  }

  /** `char::is_whitespace` */
  predicate IsSpace(c: char) {
    ('\U{9}' <= c <= '\U{D}') || c == ' ' || c == '\U{85}' || c == '\U{A0}' || c == '\U{1680}' ||
    ('\U{2000}' <= c <= '\U{200A}') || c == '\U{2028}' || c == '\U{2029}' || c == '\U{202F}' ||
    c == '\U{205F}' || c == '\U{3000}'
  }

  // ---------------------------------------------------------------------
  // Lines

  /** Index of the first line feed, or the length. */
  function NewlineAt(s: string): (i: nat)
    ensures i <= |s| && (i < |s| ==> s[i] == '\n') && '\n' !in s[..i]
  {
    if s == "" || s[0] == '\n' then 0
    else
      var i := NewlineAt(s[1..]);
      assert s[..i + 1] == [s[0]] + s[1..][..i];
      i + 1
  }

  function StripCr(s: string): string {
    if s != "" && s[|s| - 1] == '\r' then s[..|s| - 1] else s
  }

  /** `str::lines`: a carriage return goes only together with its line feed. */
  function Lines(s: string): seq<string>
    decreases |s|
  {
    if s == "" then []
    else
      var i := NewlineAt(s);
      if i == |s| then [s] else [StripCr(s[..i])] + Lines(s[i + 1..])
  }

  /** Each line followed by a line feed. */
  function Unlines(lines: seq<string>): string {
    if lines == [] then "" else Unlines(lines[..|lines| - 1]) + lines[|lines| - 1] + "\n"
  }

  predicate OneLiners(lines: seq<string>) {
    forall i :: 0 <= i < |lines| ==> '\n' !in lines[i]
  }

  lemma {:induction false} LinesAreOneLiners(s: string)
    ensures OneLiners(Lines(s))
    decreases |s|
  {
    if s == "" {
    } else {
      var i := NewlineAt(s);
      if i < |s| {
        LinesAreOneLiners(s[i + 1..]);
      } else {
        assert s[..i] == s;
      }
    }
  }

  lemma NewlineFound(s: string)
    requires '\n' in s
    ensures NewlineAt(s) < |s|
  {
    assert s[..|s|] == s;
  }

  lemma {:induction false} NewlineOfPrefix(a: string, b: string)
    ensures '\n' in a ==> NewlineAt(a + b) == NewlineAt(a)
    ensures '\n' !in a ==> NewlineAt(a + b) == |a| + NewlineAt(b)
  {
    if a == "" {
      assert a + b == b;
    } else {
      assert (a + b)[1..] == a[1..] + b;
      NewlineOfPrefix(a[1..], b);
    }
  }

  predicate Terminated(s: string) {
    s == "" || s[|s| - 1] == '\n'
  }

  /** Text after a complete line starts a new one. */
  lemma {:induction false} LinesOfConcat(a: string, b: string)
    requires Terminated(a)
    ensures Lines(a + b) == Lines(a) + Lines(b)
    decreases |a|
  {
    hide Lines, NewlineAt, StripCr;
    if a == "" {
      assert a + b == b;
      NoLines();
    } else {
      var i := NewlineAt(a);
      NewlineFound(a);
      NewlineOfPrefix(a, b);
      LinesStep(a);
      LinesStep(a + b);
      assert (a + b)[..i] == a[..i] && (a + b)[i + 1..] == a[i + 1..] + b;
      LinesOfConcat(a[i + 1..], b);
    }
  }

  lemma NoLines()
    ensures Lines("") == []
  {
  }

  lemma LinesStep(s: string)
    requires NewlineAt(s) < |s|
    ensures Lines(s) == [StripCr(s[..NewlineAt(s)])] + Lines(s[NewlineAt(s) + 1..])
  {
    hide NewlineAt, StripCr;
  }

  lemma LinesOfOne(line: string)
    requires '\n' !in line
    ensures Lines(line + "\n") == [StripCr(line)]
    ensures line != "" ==> Lines(line) == [line]
  {
    NewlineOfPrefix(line, "\n");
    NewlineOfPrefix(line, "");
    assert line + "" == line;
    assert (line + "\n")[..|line|] == line;
    assert (line + "\n")[|line| + 1..] == "";
  }

  function StripAll(lines: seq<string>): (r: seq<string>)
    ensures |r| == |lines|
  {
    if lines == [] then []
    else StripAll(lines[..|lines| - 1]) + [StripCr(lines[|lines| - 1])]
  }

  lemma {:induction false} StripAllAt(lines: seq<string>, i: nat)
    requires i < |lines|
    ensures StripAll(lines)[i] == StripCr(lines[i])
  {
    if i == |lines| - 1 {
    } else {
      StripAllAt(lines[..|lines| - 1], i);
    }
  }

  /** Writing lines out and reading them back loses at most one carriage return per line. */
  lemma {:induction false} LinesOfUnlines(lines: seq<string>)
    requires OneLiners(lines)
    ensures Lines(Unlines(lines)) == StripAll(lines)
    ensures Terminated(Unlines(lines))
  {
    if lines == [] {
    } else {
      var front, last := lines[..|lines| - 1], lines[|lines| - 1];
      assert OneLiners(front) && '\n' !in last;
      StripStep(front, last);
      assert lines == front + [last];
      hide Lines, StripCr, StripAll, Terminated, Unlines, OneLiners;
      LinesOfUnlines(front);
      UnlinesStep(front, last);
    }
  }

  lemma StripStep(front: seq<string>, last: string)
    ensures StripAll(front + [last]) == StripAll(front) + [StripCr(last)]
  {
    assert (front + [last])[..|front|] == front;
  }

  lemma UnlinesStep(front: seq<string>, last: string)
    requires Terminated(Unlines(front)) && '\n' !in last
    ensures Terminated(Unlines(front + [last]))
    ensures Lines(Unlines(front + [last])) == Lines(Unlines(front)) + [StripCr(last)]
  {
    hide Lines, StripCr;
    LinesOfOne(last);
    LinesOfConcat(Unlines(front), last + "\n");
    UnlinesSnoc(front, last);
  }

  // ---------------------------------------------------------------------
  // Lines with their terminators

  /** The text cut after each line feed. */
  function Segments(s: string): seq<string>
    decreases |s|
  {
    if s == "" then []
    else
      var i := NewlineAt(s);
      if i == |s| then [s] else [s[..i + 1]] + Segments(s[i + 1..])
  }

  function Concat(segments: seq<string>): string {
    if segments == [] then "" else segments[0] + Concat(segments[1..])
  }

  predicate EndsLine(segment: string) {
    segment != "" && segment[|segment| - 1] == '\n'
  }

  /** The item `str::lines` makes of a segment. */
  function Content(segment: string): string {
    if EndsLine(segment) then StripCr(segment[..|segment| - 1]) else segment
  }

  function Contents(segments: seq<string>): (r: seq<string>)
    ensures |r| == |segments|
  {
    seq(|segments|, i requires 0 <= i < |segments| => Content(segments[i]))
  }

  lemma ContentsSnoc(front: seq<string>, last: string)
    ensures Contents(front + [last]) == Contents(front) + [Content(last)]
  {
    hide Content;
  }

  /** All but possibly the last end in a line feed. */
  predicate Segmented(segments: seq<string>) {
    forall i :: 0 <= i < |segments| - 1 ==> EndsLine(segments[i])
  }

  /** The segments make up the text, and their contents are its lines. */
  lemma {:induction false} SegmentsOfText(s: string)
    ensures Concat(Segments(s)) == s && Segmented(Segments(s))
    ensures Lines(s) == Contents(Segments(s))
    decreases |s|
  {
    if s == "" {
    } else {
      var i := NewlineAt(s);
      if i == |s| {
        WholeSegment(s);
      } else {
        var first, rest := s[..i + 1], s[i + 1..];
        SegmentsStep(s);
        hide Concat, Contents, Segmented, NewlineAt, Lines, Segments, Content, EndsLine;
        SegmentsOfText(rest);
        SegmentsHead(first, Segments(rest));
      }
    }
  }

  lemma SegmentsStep(s: string)
    requires NewlineAt(s) < |s|
    ensures var first, rest := s[..NewlineAt(s) + 1], s[NewlineAt(s) + 1..];
            s == first + rest && EndsLine(first) &&
            Segments(s) == [first] + Segments(rest) && Lines(s) == [Content(first)] + Lines(rest)
  {
    hide NewlineAt, StripCr;
    var i := NewlineAt(s);
    assert s[..i + 1][..i] == s[..i];
  }

  lemma WholeSegment(s: string)
    requires s != "" && NewlineAt(s) == |s|
    ensures Concat([s]) == s && Contents([s]) == [s]
  {
    hide NewlineAt;
    assert s[..|s|] == s;
    assert !EndsLine(s);
    assert [s][1..] == [];
    assert Contents([s])[0] == s;
  }

  lemma SegmentsHead(first: string, rest: seq<string>)
    ensures Concat([first] + rest) == first + Concat(rest)
    ensures Contents([first] + rest) == [Content(first)] + Contents(rest)
    ensures EndsLine(first) && Segmented(rest) ==> Segmented([first] + rest)
  {
    assert ([first] + rest)[1..] == rest;
  }

  lemma UnlinesSnoc(front: seq<string>, last: string)
    ensures Unlines(front + [last]) == Unlines(front) + (last + "\n")
  {
    assert (front + [last])[..|front|] == front;
  }

  lemma {:induction false} UnlinesHead(first: string, rest: seq<string>)
    ensures Unlines([first] + rest) == first + "\n" + Unlines(rest)
  {
    var lines := [first] + rest;
    if rest == [] {
      assert lines[..0] == [];
    } else {
      var front, last := rest[..|rest| - 1], rest[|rest| - 1];
      assert lines[..|lines| - 1] == [first] + front;
      assert Unlines(lines) == Unlines([first] + front) + last + "\n";
      assert Unlines(rest) == Unlines(front) + last + "\n";
      hide Unlines;
      UnlinesHead(first, front);
    }
  }

  /** Terminated by a bare line feed. */
  predicate Plain(segment: string) {
    EndsLine(segment) && !(|segment| >= 2 && segment[|segment| - 2] == '\r')
  }

  lemma PlainIsRewritten(segment: string, a: string, b: string)
    ensures Plain(segment) ==> Content(segment) + "\n" == segment
    ensures EndsLine(segment) && !Plain(segment) ==> Content(segment) + "\n" + a != segment + b
    ensures !EndsLine(segment) ==> Content(segment) + "\n" != segment
  {
    if Plain(segment) {
      assert segment == segment[..|segment| - 1] + "\n";
    } else if EndsLine(segment) {
      var k := |segment| - 2;
      assert (Content(segment) + "\n" + a)[k] == '\n';
      assert (segment + b)[k] == '\r';
    }
  }

  /** Rewriting every line with a line feed gives the same text exactly if every line had a bare one. */
  lemma {:induction false} RewriteIsVerbatimIff(segments: seq<string>)
    requires Segmented(segments)
    ensures Unlines(Contents(segments)) == Concat(segments) <==>
            forall i :: 0 <= i < |segments| ==> Plain(segments[i])
  {
    if segments == [] {
    } else {
      var first, rest := segments[0], segments[1..];
      assert segments == [first] + rest;
      var a, b := Unlines(Contents(rest)), Concat(rest);
      SegmentsHead(first, rest);
      UnlinesHead(Content(first), Contents(rest));
      RewriteIsVerbatimIff(rest);
      hide Unlines, Concat, Content, Contents, Plain;
      PlainIsRewritten(first, a, b);
      if Plain(first) {
        SamePrefix(first, a, b);
      } else if !EndsLine(first) {
        assert rest == [];
      }
      AllOf(first, rest);
    }
  }

  lemma SamePrefix(p: string, a: string, b: string)
    ensures p + a == p + b <==> a == b
  {
    if p + a == p + b {
      assert a == (p + a)[|p|..] && b == (p + b)[|p|..];
    }
  }

  lemma AllOf(first: string, rest: seq<string>)
    ensures (forall i :: 0 <= i < |[first] + rest| ==> Plain(([first] + rest)[i])) <==>
            Plain(first) && forall i :: 0 <= i < |rest| ==> Plain(rest[i])
  {
    hide Plain;
    var all := [first] + rest;
    assert all[0] == first;
    forall i | 0 <= i < |rest| ensures all[i + 1] == rest[i] {
    }
  }

  // ---------------------------------------------------------------------
  // Trimming

  function TrimStart(s: string): string {
    if s != "" && IsSpace(s[0]) then TrimStart(s[1..]) else s
  }

  function TrimEnd(s: string): (t: string)
    ensures t <= s
  {
    if s != "" && IsSpace(s[|s| - 1]) then TrimEnd(s[..|s| - 1]) else s
  }

  function Trim(s: string): string {
    TrimEnd(TrimStart(s))
  }

  lemma {:induction false} TrimStartHead(s: string)
    ensures TrimStart(s) == "" || !IsSpace(TrimStart(s)[0])
  {
    if s == "" || !IsSpace(s[0]) {
    } else {
      TrimStartHead(s[1..]);
    }
  }

  lemma {:induction false} TrimEndKeepsHead(s: string)
    requires s != "" && !IsSpace(s[0])
    ensures TrimEnd(s) != ""
  {
    if !IsSpace(s[|s| - 1]) {
    } else {
      TrimEndKeepsHead(s[..|s| - 1]);
    }
  }

  /** Trimming on the right changes neither emptiness nor the first character. */
  lemma TrimHead(s: string)
    ensures Trim(s) == "" <==> TrimStart(s) == ""
    ensures Trim(s) <= TrimStart(s)
    ensures Trim(s) != "" ==> !IsSpace(Trim(s)[0])
  {
    TrimStartHead(s);
    if TrimStart(s) != "" {
      TrimEndKeepsHead(TrimStart(s));
    }
  }

  predicate Blank(s: string) {
    forall i :: 0 <= i < |s| ==> IsSpace(s[i])
  }

  lemma {:induction false} TrimStartDrops(s: string) returns (left: string)
    ensures s == left + TrimStart(s) && Blank(left)
  {
    if s != "" && IsSpace(s[0]) {
      var rest := TrimStartDrops(s[1..]);
      left := [s[0]] + rest;
    } else {
      left := "";
    }
  }

  lemma {:induction false} TrimEndDrops(s: string) returns (right: string)
    ensures s == TrimEnd(s) + right && Blank(right)
    ensures TrimEnd(s) != "" ==> !IsSpace(TrimEnd(s)[|TrimEnd(s)| - 1])
  {
    if s != "" && IsSpace(s[|s| - 1]) {
      var rest := TrimEndDrops(s[..|s| - 1]);
      right := rest + [s[|s| - 1]];
    } else {
      right := "";
    }
  }

  /** Trimming takes white space off both ends, all of it and nothing else. */
  lemma TrimDrops(s: string) returns (left: string, right: string)
    ensures s == left + Trim(s) + right && Blank(left) && Blank(right)
    ensures Trim(s) != "" ==> !IsSpace(Trim(s)[0]) && !IsSpace(Trim(s)[|Trim(s)| - 1])
  {
    hide IsSpace, TrimStart, TrimEnd;
    left := TrimStartDrops(s);
    right := TrimEndDrops(TrimStart(s));
    TrimStartHead(s);
    assert Trim(s) != "" ==> Trim(s)[0] == TrimStart(s)[0];
  }

  lemma {:induction false} TrimStartThenSpace(s: string, c: char)
    requires IsSpace(c)
    ensures TrimStart(s + [c]) == if TrimStart(s) == "" then "" else TrimStart(s) + [c]
  {
    if s == "" {
      assert (s + [c])[1..] == "";
    } else if IsSpace(s[0]) {
      assert (s + [c])[1..] == s[1..] + [c];
      TrimStartThenSpace(s[1..], c);
    }
  }

  /** A trailing carriage return is invisible after trimming. */
  lemma TrimOfStripCr(s: string)
    ensures Trim(StripCr(s)) == Trim(s)
  {
    if s != "" && s[|s| - 1] == '\r' {
      var t := s[..|s| - 1];
      assert s == t + ['\r'];
      TrimStartThenSpace(t, '\r');
      if TrimStart(t) != "" {
        assert (TrimStart(t) + ['\r'])[..|TrimStart(t)|] == TrimStart(t);
      }
    }
  }

  /** Line by line equal up to surrounding white space. */
  predicate SameContent(a: seq<string>, b: seq<string>) {
    |a| == |b| && forall i :: 0 <= i < |a| ==> Trim(a[i]) == Trim(b[i])
  }

  lemma StripAllContent(lines: seq<string>)
    ensures SameContent(StripAll(lines), lines)
  {
    forall i | 0 <= i < |lines|
      ensures Trim(StripAll(lines)[i]) == Trim(lines[i])
    {
      StripAllAt(lines, i);
      TrimOfStripCr(lines[i]);
    }
  }

  /** Completing the last line leaves the content alone. */
  lemma {:induction false} LinesOfCompleted(s: string)
    requires !Terminated(s)
    ensures SameContent(Lines(s + "\n"), Lines(s))
    decreases |s|
  {
    hide Trim, StripCr, NewlineAt, Lines;
    var i := NewlineAt(s);
    NewlineOfPrefix(s, "\n");
    if i == |s| {
      assert s[..i] == s;
      LinesOfOne(s);
      TrimOfStripCr(s);
    } else {
      var rest := s[i + 1..];
      LinesOfCompleted(rest);
      LinesStep(s);
      assert s[i] in s;
      LinesStep(s + "\n");
      assert (s + "\n")[..i] == s[..i] && (s + "\n")[i + 1..] == rest + "\n";
    }
  }

  lemma TrimOfTight(s: string)
    requires s != "" && !IsSpace(s[0]) && !IsSpace(s[|s| - 1])
    ensures Trim(s) == s
  {
  }

  // ---------------------------------------------------------------------
  // Fields

  /** Longest prefix without a separator. */
  function Token(s: string, space: char -> bool): (t: string)
    ensures t <= s && forall i :: 0 <= i < |t| ==> !space(t[i])
    ensures |t| < |s| ==> space(s[|t|])
  {
    if s == "" || space(s[0]) then "" else [s[0]] + Token(s[1..], space)
  }

  /** `split_ascii_whitespace` and `split_whitespace`, for their separator. */
  function Fields(s: string, space: char -> bool): seq<string>
    decreases |s|
  {
    if s == "" then []
    else if space(s[0]) then Fields(s[1..], space)
    else
      var t := Token(s, space);
      [t] + Fields(s[|t|..], space)
  }

  predicate Solid(t: string, space: char -> bool) {
    t != "" && forall i :: 0 <= i < |t| ==> !space(t[i])
  }

  lemma {:induction false} TokenOfSolid(t: string, rest: string, space: char -> bool)
    requires forall i :: 0 <= i < |t| ==> !space(t[i])
    requires rest == "" || space(rest[0])
    ensures Token(t + rest, space) == t
  {
    if t == "" {
      assert t + rest == rest;
    } else {
      assert (t + rest)[1..] == t[1..] + rest;
      TokenOfSolid(t[1..], rest, space);
    }
  }

  lemma FieldsOfSolid(t: string, space: char -> bool)
    requires Solid(t, space)
    ensures Fields(t, space) == [t]
  {
    TokenOfSolid(t, "", space);
    assert t + "" == t;
    assert t[|t|..] == "";
  }

  lemma FieldsStep(t: string, rest: string, space: char -> bool)
    requires Solid(t, space) && space(' ')
    ensures Fields(t + " " + rest, space) == [t] + Fields(rest, space)
  {
    var s := t + " " + rest;
    assert s == t + (" " + rest);
    TokenOfSolid(t, " " + rest, space);
    assert s[|t|..] == " " + rest;
    assert (" " + rest)[1..] == rest;
  }

  /** Any white space separates: the fields around it are those of the two parts. */
  lemma {:induction false} FieldsAround(a: string, c: char, b: string, space: char -> bool)
    requires space(c)
    ensures Fields(a + [c] + b, space) == Fields(a, space) + Fields(b, space)
    decreases |a|
  {
    var s := a + [c] + b;
    if a == "" {
      assert s[1..] == b;
    } else if space(a[0]) {
      assert s[1..] == a[1..] + [c] + b;
      FieldsAround(a[1..], c, b, space);
    } else {
      var t := Token(a, space);
      TokenOfPrefix(a, c, b, space);
      assert s[|t|..] == a[|t|..] + [c] + b;
      hide Token;
      FieldsAround(a[|t|..], c, b, space);
    }
  }

  lemma {:induction false} TokenOfPrefix(a: string, c: char, b: string, space: char -> bool)
    requires space(c)
    ensures Token(a + [c] + b, space) == Token(a, space)
    ensures a != "" && !space(a[0]) ==> Token(a, space) != ""
  {
    if a == "" || space(a[0]) {
    } else {
      assert (a + [c] + b)[1..] == a[1..] + [c] + b;
      TokenOfPrefix(a[1..], c, b, space);
    }
  }

  /** The five separators of `split_ascii_whitespace`; no other character is one. */
  lemma SeparatorIff(a: string, c: char, b: string)
    requires Solid(a, IsAsciiSpace) && Solid(b, IsAsciiSpace)
    ensures Fields(a + [c] + b, IsAsciiSpace) == [a, b] <==> c in {' ', '\t', '\n', '\r', '\U{C}'}
  {
    FieldsOfSolid(a, IsAsciiSpace);
    FieldsOfSolid(b, IsAsciiSpace);
    if IsAsciiSpace(c) {
      FieldsAround(a, c, b, IsAsciiSpace);
      assert [a] + [b] == [a, b];
    } else {
      FieldsOfSolid(a + [c] + b, IsAsciiSpace);
    }
  }

  // ---------------------------------------------------------------------
  // Decimal numbers

  function DigitValue(c: char): Option<nat> {
    if '0' <= c <= '9' then Some(c as int - '0' as int) else None
  }

  /** Value of a string of decimal digits. */
  function DigitsValue(s: string): Option<nat> {
    if s == "" then Some(0)
    else
      var front, last := DigitsValue(s[..|s| - 1]), DigitValue(s[|s| - 1]);
      if front.None? || last.None? then None else Some(10 * front.value + last.value)
  }

  /** `str::parse::<u64>`: an optional plus sign, then at least one digit, without overflow. */
  function ParseU64(s: string): Option<u64> {
    var digits := if s != "" && s[0] == '+' then s[1..] else s;
    if digits == "" then None
    else
      var v := DigitsValue(digits);
      if v.None? || v.value > U64_MAX then None else Some(v.value)
  }

  /** `{n}` */
  function Decimal(n: nat): (s: string)
    ensures s != ""
  {
    if n < 10 then [('0' as int + n) as char]
    else Decimal(n / 10) + [('0' as int + n % 10) as char]
  }

  predicate AllDigits(s: string) {
    forall i :: 0 <= i < |s| ==> '0' <= s[i] <= '9'
  }

  lemma {:induction false} DecimalValue(n: nat)
    ensures AllDigits(Decimal(n)) && DigitsValue(Decimal(n)) == Some(n)
  {
    var s := Decimal(n);
    if n < 10 {
      assert s[..0] == "";
    } else {
      DecimalValue(n / 10);
      assert s[..|s| - 1] == Decimal(n / 10);
    }
  }

  /** Printing and parsing a number. */
  lemma ParseOfDecimal(n: u64)
    ensures ParseU64(Decimal(n)) == Some(n)
    ensures Solid(Decimal(n), IsSpace) && Solid(Decimal(n), IsAsciiSpace)
  {
    hide DigitsValue, Decimal;
    DecimalValue(n);
  }

  lemma {:induction false} ValuedDigits(s: string)
    requires DigitsValue(s).Some?
    ensures AllDigits(s)
  {
    if s == "" {
    } else {
      ValuedDigits(s[..|s| - 1]);
    }
  }

  /** A number contains no white space of any kind. */
  lemma NumberIsSolid(s: string)
    requires ParseU64(s).Some?
    ensures Solid(s, IsSpace)
  {
    ValuedDigits(if s[0] == '+' then s[1..] else s);
  }

  function Zeros(k: nat): (s: string)
    ensures |s| == k
  {
    seq(k, _ => '0')
  }

  lemma {:induction false} ValueOfZeros(k: nat, s: string)
    ensures DigitsValue(Zeros(k) + s) == DigitsValue(s)
    decreases k + |s|
  {
    var all := Zeros(k) + s;
    if s != "" {
      var n := |s| - 1;
      assert all[..|all| - 1] == Zeros(k) + s[..n];
      ValueOfZeros(k, s[..n]);
    } else if k > 0 {
      assert all[..|all| - 1] == Zeros(k - 1) + "";
      ValueOfZeros(k - 1, "");
    }
  }

  /** Digits that come to `n` are its decimal form after some zeros. */
  lemma {:induction false} DigitsOfValue(s: string) returns (k: nat)
    requires s != "" && DigitsValue(s).Some?
    ensures s == Zeros(k) + Decimal(DigitsValue(s).value)
  {
    var n := |s| - 1;
    var front, value := s[..n], DigitsValue(s).value;
    assert s == front + [s[n]];
    if front == "" {
      k := 0;
    } else {
      k := DigitsOfValue(front);
      if value < 10 {
        assert s == Zeros(k) + "0" + [s[n]];
        k := k + 1;
      }
    }
  }

  /** The decimal form, with any zeros and at most one plus sign before it. */
  ghost predicate Denotes(s: string, n: u64) {
    exists k: nat :: s == Zeros(k) + Decimal(n) || s == "+" + (Zeros(k) + Decimal(n))
  }

  /** A number is read exactly from such a text. */
  lemma ParsesIff(s: string, n: u64)
    ensures ParseU64(s) == Some(n) <==> Denotes(s, n)
  {
    hide Decimal, DigitsValue;
    if ParseU64(s) == Some(n) {
      var digits := if s[0] == '+' then s[1..] else s;
      var k := DigitsOfValue(digits);
      assert s == digits || s == "+" + digits;
    } else {
      forall k: nat ensures s != Zeros(k) + Decimal(n) && s != "+" + (Zeros(k) + Decimal(n)) {
        ParseOfZeros(k, n);
      }
    }
  }

  lemma ParseOfZeros(k: nat, n: u64)
    ensures ParseU64(Zeros(k) + Decimal(n)) == Some(n) && ParseU64("+" + (Zeros(k) + Decimal(n))) == Some(n)
  {
    hide Decimal, DigitsValue;
    DecimalValue(n);
    ValueOfZeros(k, Decimal(n));
    var digits := Zeros(k) + Decimal(n);
    assert ("+" + digits)[1..] == digits;
    assert digits[0] == if k > 0 then '0' else Decimal(n)[0];
  }

  /** Known answer with every digit once. */
  lemma KnownDecimal()
    ensures Decimal(1234567890) == "1234567890"
  {
    assert Decimal(1234) == "1234";
    assert Decimal(1234567) == "1234567";
  }
}

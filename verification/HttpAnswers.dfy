/** What the HTTP parser answers for any input: which messages are incomplete, which are refused, and what is found in the
    others. */
module HttpAnswers {
  import opened Wrappers
  import opened CStrings
  import opened Http

  // ---------------------------------------------------------------- trimming and numbers

  /** Leading characters that are not graphic are gone. */
  lemma {:induction false} LTrimMeans(s: string)
    ensures var r, n := LTrim(s), |s| - |LTrim(s)|;
            0 <= n && r == s[n..] && (r != [] ==> Graph(r[0])) && forall i :: 0 <= i < n ==> !Graph(s[i])
  {
    if s != [] && !Graph(s[0]) {
      LTrimMeans(s[1..]);
    }
  }

  /** Trailing characters that are not graphic are gone, but never the first character. */
  lemma {:induction false} RTrimMeans(s: string)
    ensures var r := RTrim(s);
            && |r| <= |s| && r == s[..|r|] && (s != [] ==> r != []) && (|r| > 1 ==> Graph(r[|r| - 1]))
            && forall i :: |r| <= i < |s| ==> !Graph(s[i])
  {
    if |s| > 1 && !Graph(s[|s| - 1]) {
      RTrimMeans(s[..|s| - 1]);
    }
  }

  lemma {:induction false} SkipBlanksMeans(s: string)
    ensures var r, n := SkipBlanks(s), |s| - |SkipBlanks(s)|;
            0 <= n && r == s[n..] && (r != [] ==> !Blank(r[0])) && forall i :: 0 <= i < n ==> Blank(s[i])
  {
    if s != [] && Blank(s[0]) {
      SkipBlanksMeans(s[1..]);
    }
  }

  function Unsigned(w: string): string {
    if w != [] && (w[0] == '+' || w[0] == '-') then w[1..] else w
  }

  predicate IsNumber(w: string) {
    Unsigned(w) != [] && forall i :: 0 <= i < |Unsigned(w)| ==> '0' <= Unsigned(w)[i] <= '9'
  }

  /** A number is an optional sign and digits; a value beyond the bounds of a long is the bound. */
  lemma StrtolMeans(w: string)
    ensures Strtol(w).Some? <==> IsNumber(w)
    ensures IsNumber(w) ==>
              var n := if w[0] == '-' then 0 - DecValue(Unsigned(w)) else DecValue(Unsigned(w));
              var v := Strtol(w).value;
              && -LONG_MAX - 1 <= v <= LONG_MAX
              && (-LONG_MAX - 1 <= n <= LONG_MAX ==> v == n)
              && (n > LONG_MAX ==> v == LONG_MAX) && (n < -LONG_MAX - 1 ==> v == -LONG_MAX - 1)
  {
  }

  // ---------------------------------------------------------------- lines

  /** The lines of a text: what is in front of each CR LF. */
  function LinesOf(s: string): seq<string>
    decreases |s|
  {
    var e := IndexOf(s, CRLF);
    if e < 0 then [] else [s[..e]] + LinesOf(s[e + 2..])
  }

  predicate AllBlank(line: string) {
    forall i :: 0 <= i < |line| ==> Blank(line[i])
  }

  /** The lines up to the first blank one. */
  function HeaderPart(lines: seq<string>): seq<string> {
    if lines == [] || AllBlank(lines[0]) then [] else [lines[0]] + HeaderPart(lines[1..])
  }

  predicate Ends(lines: seq<string>) {
    lines != [] && (AllBlank(lines[0]) || Ends(lines[1..]))
  }

  predicate ColonMissing(lines: seq<string>) {
    exists j :: 0 <= j < |lines| && ':' !in lines[j]
  }

  lemma {:induction false} IndexInTail(s: string, p: string, n: nat)
    requires n <= IndexOf(s, p)
    ensures n <= |s| && IndexOf(s[n..], p) == IndexOf(s, p) - n
  {
    if n == 0 {
      assert s[0..] == s;
    } else {
      IndexInTail(s[1..], p, n - 1);
      assert s[1..][n - 1..] == s[n..];
    }
  }

  lemma ColonAt(s: string, i: nat)
    requires i < |s| && s[i] == ':'
    ensures 0 <= IndexOf(s, ":") <= i
  {
    assert s[i..i + 1] == ":";
    FirstPlace(s, ":", i);
  }

  lemma IndexOfColon(s: string)
    ensures IndexOf(s, ":") < 0 <==> ':' !in s
    ensures IndexOf(s, ":") >= 0 ==> s[IndexOf(s, ":")] == ':' && ':' !in s[..IndexOf(s, ":")]
  {
    var c := IndexOf(s, ":");
    if c >= 0 {
      assert s[c] == s[c..c + 1][0];
    }
    forall i | 0 <= i < |s| && s[i] == ':' ensures 0 <= c <= i {
      ColonAt(s, i);
    }
  }

  /** The line without leading blanks. */
  function Stripped(line: string): string {
    SkipBlanks(line)
  }

  /** Blanks at the start of a text are those of its first line. */
  lemma {:induction false} SkipInLine(line: string, rest: string)
    requires rest != [] && !Blank(rest[0])
    ensures SkipBlanks(line + rest) == SkipBlanks(line) + rest
  {
    if line == [] {
      assert line + rest == rest;
    } else if Blank(line[0]) {
      assert (line + rest)[1..] == line[1..] + rest;
      SkipInLine(line[1..], rest);
    }
  }

  lemma StrippedKeeps(line: string)
    ensures Stripped(line) == [] <==> AllBlank(line)
    ensures ':' in Stripped(line) <==> ':' in line
  {
    SkipBlanksMeans(line);
    var n := |line| - |SkipBlanks(line)|;
    assert line == line[..n] + line[n..];
    assert forall i :: 0 <= i < n ==> line[i] != ':';
  }

  /** The first line without its leading blanks, its end, and what is behind it. */
  lemma FirstLine(s: string, e: nat)
    requires IndexOf(s, CRLF) == e
    ensures e + 2 <= |s| && SkipBlanks(s) == Stripped(s[..e]) + CRLF + s[e + 2..]
  {
    Parts(s, e);
    SkipInLine(s[..e], CRLF + s[e + 2..]);
    Joined(Stripped(s[..e]), CRLF, s[e + 2..]);
  }

  lemma Parts(s: string, e: nat)
    requires e + 2 <= |s| && s[e..e + 2] == CRLF
    ensures s == s[..e] + (CRLF + s[e + 2..])
  {
    assert s[e..e + 2] + s[e + 2..] == s[e..];
  }

  lemma Joined(a: string, b: string, c: string)
    ensures a + (b + c) == a + b + c
  {
  }

  /** Its end is still the first end of a line. */
  lemma FirstEnd(s: string, e: nat)
    requires IndexOf(s, CRLF) == e
    ensures IndexOf(SkipBlanks(s), CRLF) == |Stripped(s[..e])|
  {
    FirstLine(s, e);
    SkipBlanksMeans(s);
    SkipBlanksMeans(s[..e]);
    IndexInTail(s, CRLF, |s| - |SkipBlanks(s)|);
  }

  /** What is made of a line without leading blanks. */
  lemma RoundOfStripped(line: string, rest: string)
    requires IndexOf(line + CRLF + rest, CRLF) == |line|
    ensures line == [] ==> LineRound(line + CRLF + rest) == End
    ensures line != [] && ':' !in line ==> LineRound(line + CRLF + rest) == Bad
    ensures line != [] && ':' in line ==>
              var c := IndexOf(line, ":");
              0 <= c && LineRound(line + CRLF + rest) == Split(line[..c], line[c + 1..], rest)
  {
    var s, e := line + CRLF + rest, |line|;
    assert s[..e] == line && s[e + 2..] == rest;
    IndexOfColon(line);
    if ':' in line {
      var c := IndexOf(line, ":");
      assert s[..c] == line[..c] && s[c + 1..e] == line[c + 1..];
    }
  }

  lemma OccursBehind(s: string, p: string, n: nat, i: nat)
    requires n <= |s| && OccursAt(s[n..], p, i)
    ensures OccursAt(s, p, n + i)
  {
    assert s[n..][i..i + |p|] == s[n + i..n + i + |p|];
  }

  lemma NoLine(s: string)
    requires IndexOf(s, CRLF) < 0
    ensures HeaderRound(s) == Bad
  {
    SkipBlanksMeans(s);
    var n := |s| - |SkipBlanks(s)|;
    forall i: nat | OccursAt(s[n..], CRLF, i) ensures Occurs(s, CRLF) {
      OccursBehind(s, CRLF, n, i);
    }
    NotFound(s, CRLF);
    NotFound(SkipBlanks(s), CRLF);
  }

  /** What one round makes of the first line. */
  lemma RoundOfLine(s: string, e: nat)
    requires IndexOf(s, CRLF) == e
    ensures e + 2 <= |s|
    ensures AllBlank(s[..e]) ==> HeaderRound(s) == End
    ensures !AllBlank(s[..e]) && ':' !in s[..e] ==> HeaderRound(s) == Bad
    ensures !AllBlank(s[..e]) && ':' in s[..e] ==>
              var c := IndexOf(Stripped(s[..e]), ":");
              0 <= c && HeaderRound(s) == Split(Stripped(s[..e])[..c], Stripped(s[..e])[c + 1..], s[e + 2..])
  {
    FirstLine(s, e);
    FirstEnd(s, e);
    StrippedKeeps(s[..e]);
    RoundOfStripped(Stripped(s[..e]), s[e + 2..]);
  }

  // ---------------------------------------------------------------- header lines

  /** The name in front of the first colon, the value behind it. */
  function NameOf(line: string): string
    requires ':' in line
  {
    IndexOfColon(line);
    line[..IndexOf(line, ":")]
  }

  function ValueOf(line: string): string
    requires ':' in line
  {
    IndexOfColon(line);
    line[IndexOf(line, ":") + 1..]
  }

  predicate NoGraphic(s: string) {
    forall i :: 0 <= i < |s| ==> !Graph(s[i])
  }

  /** A colon with something in front of it and something graphic behind it. */
  predicate GoodLine(line: string) {
    ':' in Stripped(line) && NameOf(Stripped(line)) != [] && !NoGraphic(ValueOf(Stripped(line)))
  }

  predicate AllGood(lines: seq<string>) {
    forall j :: 0 <= j < |lines| ==> GoodLine(lines[j])
  }

  /** The first line that is not good has no colon. */
  ghost predicate FirstLacksColon(lines: seq<string>) {
    exists j: nat :: LacksColonAt(lines, j)
  }

  predicate LacksColonAt(lines: seq<string>, j: nat) {
    j < |lines| && ':' !in lines[j] && AllGood(lines[..j])
  }

  function HeaderOf(line: string): Header
    requires GoodLine(line)
  {
    Header(RTrim(NameOf(Stripped(line))), RTrim(LTrim(ValueOf(Stripped(line)))))
  }

  /** The headers of the lines, the last one first. */
  function HeadersOf(lines: seq<string>): seq<Header>
    requires AllGood(lines)
  {
    if lines == [] then [] else HeadersOf(lines[1..]) + [HeaderOf(lines[0])]
  }

  lemma NothingGraphic(s: string)
    ensures LTrim(s) == [] <==> NoGraphic(s)
  {
    LTrimMeans(s);
    var n := |s| - |LTrim(s)|;
    if n < |s| {
      assert LTrim(s)[0] == s[n];
    }
  }

  /** What one round makes of a line with a colon. */
  lemma RoundOfColon(s: string, e: nat)
    requires IndexOf(s, CRLF) == e && !AllBlank(s[..e]) && ':' in s[..e]
    ensures e + 2 <= |s|
    ensures HeaderRound(s) == if GoodLine(s[..e]) then Found(HeaderOf(s[..e]), s[e + 2..]) else Wild
  {
    RoundOfLine(s, e);
    StrippedKeeps(s[..e]);
    var line := Stripped(s[..e]);
    NothingGraphic(ValueOf(line));
  }

  lemma GoodOneMore(line: string, lines: seq<string>)
    ensures AllGood([line] + lines) <==> GoodLine(line) && AllGood(lines)
    ensures AllGood([line] + lines) ==> HeadersOf([line] + lines) == HeadersOf(lines) + [HeaderOf(line)]
  {
    var all := [line] + lines;
    assert all[1..] == lines;
    if AllGood(all) {
      assert GoodLine(all[0]);
      assert forall j :: 0 <= j < |lines| ==> lines[j] == all[j + 1];
    }
  }

  lemma LacksNext(line: string, lines: seq<string>, j: nat)
    ensures LacksColonAt([line] + lines, j + 1) <==> GoodLine(line) && LacksColonAt(lines, j)
  {
    var all := [line] + lines;
    if j < |lines| {
      assert all[..j + 1] == [line] + lines[..j] && all[j + 1] == lines[j];
      GoodOneMore(line, lines[..j]);
    }
  }

  lemma LacksOneMore(line: string, lines: seq<string>)
    ensures FirstLacksColon([line] + lines) <==> ':' !in line || (GoodLine(line) && FirstLacksColon(lines))
  {
    forall j: nat ensures LacksColonAt([line] + lines, j + 1) <==> GoodLine(line) && LacksColonAt(lines, j) {
      LacksNext(line, lines, j);
    }
    assert LacksColonAt([line] + lines, 0) <==> ':' !in line;
    if j: nat :| LacksColonAt([line] + lines, j) {
      if j > 0 {
        LacksNext(line, lines, j - 1);
      }
    }
  }

  /** The first line decides, or the others do. */
  lemma LinesDecide(s: string, e: nat)
    requires IndexOf(s, CRLF) == e
    ensures e + 2 <= |s|
    ensures LinesOf(s) == [s[..e]] + LinesOf(s[e + 2..])
    ensures Ends(LinesOf(s)) <==> AllBlank(s[..e]) || Ends(LinesOf(s[e + 2..]))
    ensures HeaderPart(LinesOf(s)) == if AllBlank(s[..e]) then [] else [s[..e]] + HeaderPart(LinesOf(s[e + 2..]))
  {
    assert LinesOf(s)[1..] == LinesOf(s[e + 2..]);
  }

  /** The header lines are accepted iff every one is good and an empty line ends them; they are refused iff a line without a
      colon comes before any other fault, or none is at fault and the empty line is missing. */
  lemma {:induction false} HeadersDecided(s: string, list: seq<Header>)
    ensures var lines := HeaderPart(LinesOf(s));
            && (ParseHeaders(s, list).Done? <==> Ends(LinesOf(s)) && AllGood(lines))
            && (ParseHeaders(s, list).Done? ==> ParseHeaders(s, list).value == HeadersOf(lines) + list)
            && (ParseHeaders(s, list).Error? <==> FirstLacksColon(lines) || (AllGood(lines) && !Ends(LinesOf(s))))
    decreases |s|
  {
    var e := IndexOf(s, CRLF);
    if e < 0 {
      NoLine(s);
    } else {
      RoundOfLine(s, e);
      LinesDecide(s, e);
      var line, rest := s[..e], s[e + 2..];
      if AllBlank(line) {
        assert HeadersOf([]) + list == list;
      } else {
        LacksOneMore(line, HeaderPart(LinesOf(rest)));
        GoodOneMore(line, HeaderPart(LinesOf(rest)));
        StrippedKeeps(line);
        if ':' in line {
          RoundOfColon(s, e);
          if GoodLine(line) {
            HeadersDecided(rest, [HeaderOf(line)] + list);
            if AllGood(HeaderPart(LinesOf(rest))) {
              ListGrows(HeadersOf(HeaderPart(LinesOf(rest))), HeaderOf(line), list);
            }
          }
        }
      }
    }
  }

  lemma OccursInTurn(s: string, a: string, b: string, i: nat)
    ensures OccursAt(s, a + b, i) <==> OccursAt(s, a, i) && OccursAt(s, b, i + |a|)
  {
    var k := i + |a|;
    if k + |b| <= |s| {
      assert s[i..k + |b|] == s[i..k] + s[k..k + |b|];
      if s[i..k + |b|] == a + b {
        assert s[i..k] == (a + b)[..|a|] == a && s[k..k + |b|] == (a + b)[|a|..] == b;
      }
    }
  }

  lemma EndIs(s: string, i: nat)
    ensures OccursAt(s, HEADERS_END, i) <==> OccursAt(s, CRLF, i) && OccursAt(s, CRLF, i + 2)
    ensures OccursAt(s, CRLF, i) <==> i + 2 <= |s| && s[i] == '\r' && s[i + 1] == '\n'
  {
    assert HEADERS_END == CRLF + CRLF;
    OccursInTurn(s, CRLF, CRLF, i);
    if i + 2 <= |s| {
      assert s[i..i + 2] == [s[i], s[i + 1]];
    }
  }

  lemma OccursInTail(s: string, p: string, n: nat, i: nat)
    requires OccursAt(s, p, n + i)
    ensures n <= |s| && OccursAt(s[n..], p, i)
  {
    assert s[n..][i..i + |p|] == s[n + i..n + i + |p|];
  }

  lemma EmptyFirstLine(s: string)
    requires OccursAt(s, CRLF, 0)
    ensures Ends(LinesOf(s))
  {
    FirstPlace(s, CRLF, 0);
    LinesDecide(s, 0);
  }

  /** The first end of a line is the start of the empty line, or lies in front of it. */
  lemma FirstEndBefore(s: string, i: nat)
    requires OccursAt(s, HEADERS_END, i)
    ensures var l := IndexOf(s, CRLF); l == i || 0 <= l <= i - 2
  {
    EndIs(s, i);
    FirstPlace(s, CRLF, i);
    var l := IndexOf(s, CRLF);
    assert OccursAt(s, CRLF, l);
    EndIs(s, l);
    assert s[l + 1] != s[i];
  }

  /** Where an empty line follows, a blank line ends the lines behind the first one. */
  lemma {:induction false} EmptyLineIsThere(s: string, i: nat)
    requires OccursAt(s, HEADERS_END, i)
    ensures IndexOf(s, CRLF) >= 0 && Ends(LinesOf(s[IndexOf(s, CRLF) + 2..]))
    decreases |s|
  {
    FirstEndBefore(s, i);
    var l := IndexOf(s, CRLF);
    var t := s[l + 2..];
    if l == i {
      EndIs(s, i);
      OccursInTail(s, CRLF, l + 2, 0);
      EmptyFirstLine(t);
    } else {
      OccursInTail(s, HEADERS_END, l + 2, i - l - 2);
      EmptyLineIsThere(t, i - l - 2);
      LinesDecide(t, IndexOf(t, CRLF));
    }
  }

  // ---------------------------------------------------------------- the words of the first line

  /** The next graphic character, or the end. */
  function NextGraph(s: string, i: nat): (j: nat)
    requires i <= |s|
    ensures i <= j <= |s| && (forall k :: i <= k < j ==> !Graph(s[k])) && (j < |s| ==> Graph(s[j]))
    decreases |s| - i
  {
    if i == |s| || Graph(s[i]) then i else NextGraph(s, i + 1)
  }

  /** The next space, or the end. */
  function NextSpace(s: string, i: nat): (j: nat)
    requires i <= |s|
    ensures i <= j <= |s| && ' ' !in s[i..j] && (j < |s| ==> s[j] == ' ')
    decreases |s| - i
  {
    if i == |s| || s[i] == ' ' then i else NextSpace(s, i + 1)
  }

  /** The first word starts at the first graphic character, and each further word at the first graphic character behind the
      next space. */
  function WordStart(s: string, k: nat): (i: nat)
    ensures i <= |s|
  {
    if k == 0 then NextGraph(s, 0) else NextGraph(s, NextSpace(s, WordStart(s, k - 1)))
  }

  predicate Missing(s: string, k: nat) {
    WordStart(s, k) == |s|
  }

  predicate NoSpaceBehind(s: string, k: nat) {
    NextSpace(s, WordStart(s, k)) == |s|
  }

  function Word(s: string, k: nat): string {
    WordOf(s[WordStart(s, k)..])
  }

  lemma {:induction false} LTrimFrom(s: string, i: nat)
    requires i <= |s|
    ensures LTrim(s[i..]) == s[NextGraph(s, i)..]
    decreases |s| - i
  {
    if i < |s| && !Graph(s[i]) {
      assert s[i..][1..] == s[i + 1..];
      LTrimFrom(s, i + 1);
    }
  }

  lemma {:induction false} SpaceFrom(s: string, i: nat)
    requires i <= |s|
    ensures IndexOf(s[i..], " ") == if NextSpace(s, i) == |s| then -1 else NextSpace(s, i) - i
    decreases |s| - i
  {
    if i < |s| {
      assert " " <= s[i..] <==> s[i] == ' ';
      assert s[i..][1..] == s[i + 1..];
      if s[i] != ' ' {
        SpaceFrom(s, i + 1);
      }
    }
  }

  lemma NextWordFrom(s: string, i: nat)
    requires i <= |s|
    ensures NextWord(Some(s[i..])) == if NextSpace(s, i) == |s| then None else Some(s[NextGraph(s, NextSpace(s, i))..])
  {
    SpaceFrom(s, i);
    var j := NextSpace(s, i);
    if j < |s| {
      assert s[i..][j - i..] == s[j..];
      LTrimFrom(s, j);
    }
  }

  /** The pointers of the view, and null where no space is left. */
  lemma ViewPoints(s: string)
    requires Occurs(s, HEADERS_END)
    ensures ViewOf(s).Some?
    ensures var v := ViewOf(s).value;
            && v.first == s[WordStart(s, 0)..]
            && v.second == (if NoSpaceBehind(s, 0) then None else Some(s[WordStart(s, 1)..]))
            && (!NoSpaceBehind(s, 0) ==> v.third == if NoSpaceBehind(s, 1) then None else Some(s[WordStart(s, 2)..]))
  {
    ViewIffEnd(s);
    assert s[0..] == s;
    LTrimFrom(s, 0);
    NextWordFrom(s, WordStart(s, 0));
    NextWordFrom(s, WordStart(s, 1));
  }

  lemma WordIsThere(s: string, k: nat)
    ensures Word(s, k) == [] <==> Missing(s, k)
  {
    var t := s[WordStart(s, k)..];
    if t != [] {
      assert Graph(t[0]);
    }
  }

  // ---------------------------------------------------------------- the answers

  predicate StatusOk(s: string, request: bool) {
    request || IsNumber(Word(s, 1))
  }

  predicate StartFine(s: string, request: bool) {
    !Missing(s, 0) && !Missing(s, 1) && StatusOk(s, request) && !Missing(s, 2)
  }

  /** A fault is reported when it is found before a null pointer is followed. */
  predicate StartRefused(s: string, request: bool) {
    || Missing(s, 0)
    || (!NoSpaceBehind(s, 0) && (Missing(s, 1) || !StatusOk(s, request) || (!NoSpaceBehind(s, 1) && Missing(s, 2))))
  }

  function StartFound(s: string, request: bool): Start
    requires StartFine(s, request)
  {
    StrtolMeans(Word(s, 1));
    if request then Request(Word(s, 0), Word(s, 1), Word(s, 2))
    else Response(Word(s, 0), Strtol(Word(s, 1)).value % UINT_LIMIT, Word(s, 2))
  }

  lemma StartDecided(s: string, request: bool)
    requires Occurs(s, HEADERS_END)
    ensures ViewOf(s).Some?
    ensures var r := StartOf(ViewOf(s).value, request);
            && (r.Done? <==> StartFine(s, request))
            && (r.Done? ==> r.value == StartFound(s, request))
            && (r.Error? <==> StartRefused(s, request))
  {
    ViewPoints(s);
    WordIsThere(s, 0);
    WordIsThere(s, 1);
    WordIsThere(s, 2);
    StrtolMeans(Word(s, 1));
  }

  /** The lines between the first line and the first blank one behind it. */
  function HeaderLinesOf(s: string): seq<string> {
    var lines := LinesOf(s);
    if lines == [] then [] else HeaderPart(lines[1..])
  }

  lemma HeadersFound(s: string)
    requires Occurs(s, HEADERS_END)
    ensures ViewOf(s).Some?
    ensures var r := ParseHeaders(ViewOf(s).value.headers, []);
            && (r.Done? <==> AllGood(HeaderLinesOf(s)))
            && (r.Done? ==> r.value == HeadersOf(HeaderLinesOf(s)))
            && (r.Error? <==> FirstLacksColon(HeaderLinesOf(s)))
  {
    ViewPoints(s);
    var i: nat :| OccursAt(s, HEADERS_END, i);
    EmptyLineIsThere(s, i);
    var l := IndexOf(s, CRLF);
    LinesDecide(s, l);
    assert LinesOf(s)[1..] == LinesOf(s[l + 2..]);
    HeadersDecided(s[l + 2..], []);
    if AllGood(HeaderLinesOf(s)) {
      assert HeadersOf(HeaderLinesOf(s)) + [] == HeadersOf(HeaderLinesOf(s));
    }
  }

  /** What is behind the first empty line. */
  function BodyOf(s: string): Option<string>
    requires Occurs(s, HEADERS_END)
  {
    NotFound(s, HEADERS_END);
    var body := s[IndexOf(s, HEADERS_END) + 4..];
    if body == [] then None else Some(body)
  }

  lemma BodyFound(s: string)
    requires Occurs(s, HEADERS_END)
    ensures ViewOf(s).Some?
    ensures BodyOf(s) == if ViewOf(s).value.body == [] then None else Some(ViewOf(s).value.body)
  {
    ViewIffEnd(s);
  }

  /** The answer to any text: more is needed iff there is no empty line yet; a message is found iff all three words are
      there, the status is a number and every header line is good; an error is reported iff the first fault in the order
      of the text is one that the code looks for. */
  lemma Answer(s: string, request: bool)
    ensures var r := Parse(s, request);
            && (r.NeedMore? <==> !Occurs(s, HEADERS_END))
            && (r.Done? <==> Occurs(s, HEADERS_END) && StartFine(s, request) && AllGood(HeaderLinesOf(s)))
            && (r.Done? ==> r.value == Msg(StartFound(s, request), HeadersOf(HeaderLinesOf(s)), BodyOf(s)))
            && (r.Error? <==>
                  Occurs(s, HEADERS_END)
                  && (StartRefused(s, request) || (StartFine(s, request) && FirstLacksColon(HeaderLinesOf(s)))))
  {
    NeedsMore(s, request);
    if Occurs(s, HEADERS_END) {
      StartDecided(s, request);
      HeadersFound(s);
      BodyFound(s);
      var v := ViewOf(s).value;
      Combined(StartOf(v, request), ParseHeaders(v.headers, []), v.body);
    } else {
      ViewIffEnd(s);
    }
  }

  lemma Combined(start: Parsed<Start>, headers: Parsed<seq<Header>>, body: string)
    requires !start.NeedMore? && !headers.NeedMore?
    ensures var r := Combine(start, headers, body);
            && (r.Done? <==> start.Done? && headers.Done?)
            && (r.Done? ==> r.value == Msg(start.value, headers.value, if body == [] then None else Some(body)))
            && (r.Error? <==> start.Error? || (start.Done? && headers.Error?))
  {
  }

  /** Unless the code follows a null pointer or looks before an empty string, a message is refused iff a word is missing,
      the status is not a number, or a header line has no colon. */
  lemma Refused(s: string, request: bool)
    requires !Parse(s, request).Undefined?
    ensures Parse(s, request).Error? <==>
              Occurs(s, HEADERS_END) &&
              (Missing(s, 0) || Missing(s, 1) || Missing(s, 2) || !StatusOk(s, request) || ColonMissing(HeaderLinesOf(s)))
  {
    Answer(s, request);
    var lines := HeaderLinesOf(s);
    if FirstLacksColon(lines) {
      var j: nat :| LacksColonAt(lines, j);
      assert ColonMissing(lines);
    }
    if AllGood(lines) {
      forall j | 0 <= j < |lines| ensures ':' in lines[j] {
        assert GoodLine(lines[j]);
        StrippedKeeps(lines[j]);
      }
    }
  }

  /** A message that is read in part is not refused: every prefix that ends before the last byte of the empty line asks for
      more, and from there on the answer is a message. */
  lemma PrefixNeedsMore(m: Msg, k: nat, request: bool)
    requires WellFormed(m) && k <= |Text(m)|
    ensures Parse(Text(m)[..k], request).NeedMore? <==> k < |StartLine(m.start)| + |HeaderLines(m.headers)| + |CRLF|
  {
    TextEnds(m);
    NeedsMore(Text(m)[..k], request);
    OccursInPrefix(Text(m), HEADERS_END, k);
  }

  lemma OccursInPrefix(s: string, p: string, k: nat)
    requires k <= |s| && IndexOf(s, p) >= 0
    ensures Occurs(s[..k], p) <==> IndexOf(s, p) + |p| <= k
  {
    var e := IndexOf(s, p);
    if e + |p| <= k {
      assert s[..k][e..e + |p|] == s[e..e + |p|];
      assert OccursAt(s[..k], p, e);
    }
    if i: nat :| OccursAt(s[..k], p, i) {
      assert s[..k][i..i + |p|] == s[i..i + |p|];
      FirstPlace(s, p, i);
    }
  }

  lemma TextEnds(m: Msg)
    requires WellFormed(m)
    ensures IndexOf(Text(m), HEADERS_END) == |StartLine(m.start)| + |HeaderLines(m.headers)| - 2
  {
    var w := Words(m.start);
    TextIsLines(m);
    WordsAreWords(m.start);
    NoReturn(w[0], w[1], w[2]);
    EndsOfLine(Line(w[0], w[1], w[2]), m.headers, BodyText(m));
  }

  // ---------------------------------------------------------------- an example

  lemma StatusExample()
    ensures Dec(404) == "404"
  {
    assert Dec(4) == "4";
    assert Dec(40) == "40";
  }

  lemma HeaderExample(a: Header, b: Header)
    requires a == Header("Host", "a") && b == Header("X", "b c")
    ensures HeaderLines([a, b]) == "Host: a\r\nX: b c\r\n"
    ensures Reversed([a, b]) == [b, a]
  {
    assert [a, b][1..] == [b] && [b][1..] == [];
    assert HeaderLines([b]) == HeaderLine(b);
    assert Reversed([b]) == [b];
  }

  lemma StartExample(start: Start)
    requires start == Response("HTTP/1.1", 404, "Lost")
    ensures StartLine(start) == "HTTP/1.1 404 Lost\r\n"
  {
    StatusExample();
  }

  lemma BodyExample(m: Msg)
    requires m.body == Some("body")
    ensures BodyText(m) == "body"
  {
    NoNul("body");
  }

  /** A response as it stands on the wire, and what is found in it. */
  lemma Example(m: Msg, a: Header, b: Header)
    requires a == Header("Host", "a") && b == Header("X", "b c")
    requires m == Msg(Response("HTTP/1.1", 404, "Lost"), [a, b], Some("body"))
    ensures Text(m) == "HTTP/1.1 404 Lost\r\n" + "Host: a\r\nX: b c\r\n" + "\r\n" + "body"
    ensures Parse(Text(m), false) == Done(m.(headers := [b, a]))
  {
    StartExample(m.start);
    HeaderExample(a, b);
    BodyExample(m);
    RoundTrip(m);
  }
}

/** HTTP messages: printing into a buffer of limited size, and parsing (RFC 7230 section 3).  A C string is the sequence of
    its characters before the NUL. */
module Http {
  import opened Wrappers
  import opened CStrings

  // ---------------------------------------------------------------- strings

  predicate Graph(c: char) {
    '!' <= c <= '~'
  }

  predicate Blank(c: char) {
    c == ' ' || c == '\t'
  }

  /** xstrltrim. */
  function LTrim(s: string): string {
    if s != [] && !Graph(s[0]) then LTrim(s[1..]) else s
  }

  /** xstrrtrim of a string that is not empty: its first character stays whatever it is. */
  function RTrim(s: string): string {
    if |s| <= 1 || Graph(s[|s| - 1]) then s else RTrim(s[..|s| - 1])
  }

  /** xstr_word_len without special space characters. */
  function WordLen(s: string): (n: nat)
    ensures n <= |s| && (forall i :: 0 <= i < n ==> Graph(s[i])) && (n < |s| ==> !Graph(s[n]))
  {
    if s != [] && Graph(s[0]) then 1 + WordLen(s[1..]) else 0
  }

  /** What is left behind leading blanks, as xstr_space_len counts them. */
  function SkipBlanks(s: string): string {
    if s != [] && Blank(s[0]) then SkipBlanks(s[1..]) else s
  }

  /** strstr: the first place where `p` occurs, or -1. */
  function IndexOf(s: string, p: string): (i: int)
    ensures i == -1 || (0 <= i && i + |p| <= |s| && s[i..i + |p|] == p)
  {
    if p <= s then 0
    else if s == [] then -1
    else var i := IndexOf(s[1..], p); if i < 0 then -1 else i + 1
  }

  predicate OccursAt(s: string, p: string, i: nat) {
    i + |p| <= |s| && s[i..i + |p|] == p
  }

  ghost predicate Occurs(s: string, p: string) {
    exists i: nat :: OccursAt(s, p, i)
  }

  /** No place comes before the one found, and none is missed. */
  lemma {:induction false} FirstPlace(s: string, p: string, i: nat)
    requires OccursAt(s, p, i)
    ensures 0 <= IndexOf(s, p) <= i
  {
    if !(p <= s) {
      assert i > 0 && s[1..][i - 1..i - 1 + |p|] == s[i..i + |p|];
      FirstPlace(s[1..], p, i - 1);
    }
  }

  /** The result is -1 iff the text occurs nowhere. */
  lemma NotFound(s: string, p: string)
    ensures IndexOf(s, p) < 0 <==> !Occurs(s, p)
  {
    if IndexOf(s, p) >= 0 {
      assert OccursAt(s, p, IndexOf(s, p));
    }
    if i: nat :| OccursAt(s, p, i) {
      FirstPlace(s, p, i);
    }
  }

  const CRLF: string := "\r\n"
  const HEADERS_END: string := "\r\n\r\n"

  method XstrWordLen(s: string) returns (n: nat)
    ensures n == WordLen(s)
  {
    n := 0;
    assert s[0..] == s;
    while n < |s|
      invariant n <= |s| && WordLen(s) == n + WordLen(s[n..])
    {
      if !Graph(s[n]) {
        return;
      }
      assert s[n..][1..] == s[n + 1..];
      n := n + 1;
    }
  }

  method XstrSpaceLen(s: string) returns (n: nat)
    ensures n <= |s| && SkipBlanks(s) == s[n..]
  {
    n := 0;
    assert s[0..] == s;
    while n < |s|
      invariant n <= |s| && SkipBlanks(s) == SkipBlanks(s[n..])
    {
      if !Blank(s[n]) {
        return;
      }
      assert s[n..][1..] == s[n + 1..];
      n := n + 1;
    }
  }

  method Xstrltrim(s: string) returns (n: nat)
    ensures n <= |s| && LTrim(s) == s[n..]
  {
    n := 0;
    assert s[0..] == s;
    while n < |s| && !Graph(s[n])
      invariant n <= |s| && LTrim(s) == LTrim(s[n..])
    {
      assert s[n..][1..] == s[n + 1..];
      n := n + 1;
    }
  }

  method Xstrrtrim(s: string) returns (r: string)
    requires s != []
    ensures r == RTrim(s)
  {
    var i := |s| - 1;
    assert s[..|s|] == s;
    while i > 0
      invariant 0 <= i < |s| && RTrim(s) == RTrim(s[..i + 1])
    {
      if Graph(s[i]) {
        break;
      }
      assert s[..i + 1][..i] == s[..i];
      i := i - 1;
    }
    return s[..i + 1];
  }

  // ---------------------------------------------------------------- numbers

  function DigitChar(d: nat): char
    requires d < 10
  {
    "0123456789"[d]
  }

  /** The digits of a number, as "%u" prints them. */
  function Dec(n: nat): (s: string)
    ensures s != []
  {
    if n < 10 then [DigitChar(n)] else Dec(n / 10) + [DigitChar(n % 10)]
  }

  predicate IsDigit(c: char) {
    '0' <= c <= '9'
  }

  function DigitValue(c: char): nat
    requires IsDigit(c)
  {
    c as int - '0' as int
  }

  predicate AllDigits(s: string) {
    s != [] && forall i :: 0 <= i < |s| ==> IsDigit(s[i])
  }

  function DecValue(s: string): nat
    requires forall i :: 0 <= i < |s| ==> IsDigit(s[i])
  {
    if s == [] then 0 else DecValue(s[..|s| - 1]) * 10 + DigitValue(s[|s| - 1])
  }

  const LONG_MAX := 0x7fff_ffff_ffff_ffff
  const UINT_LIMIT := 0x1_0000_0000

  /** xstrtol of a word: an optional sign and digits only, cut off at the bounds of a long. */
  function Strtol(w: string): Option<int> {
    if AllDigits(w) then Some(Clamp(DecValue(w)))
    else if w != [] && w[0] == '+' && AllDigits(w[1..]) then Some(Clamp(DecValue(w[1..])))
    else if w != [] && w[0] == '-' && AllDigits(w[1..]) then Some(Clamp(0 - DecValue(w[1..])))
    else None
  }

  function Clamp(n: int): int {
    if n > LONG_MAX then LONG_MAX else if n < -LONG_MAX - 1 then -LONG_MAX - 1 else n
  }

  lemma {:induction false} DecRoundTrip(n: nat)
    ensures AllDigits(Dec(n)) && DecValue(Dec(n)) == n
  {
    if n >= 10 {
      DecRoundTrip(n / 10);
      assert Dec(n)[..|Dec(n)| - 1] == Dec(n / 10);
    }
  }

  // ---------------------------------------------------------------- messages

  datatype Header = Header(name: string, value: string)

  datatype Start = Request(method_: string, uri: string, version: string)
                 | Response(version: string, status: nat, reason: string)

  /** `headers` in the order of the list, its head first. */
  datatype Msg = Msg(start: Start, headers: seq<Header>, body: Option<string>)

  function Words(s: Start): seq<string> {
    if s.Request? then [s.method_, s.uri, s.version] else [s.version, Dec(s.status), s.reason]
  }

  function StartLine(s: Start): string {
    Words(s)[0] + " " + Words(s)[1] + " " + Words(s)[2] + CRLF
  }

  function HeaderLine(h: Header): string {
    h.name + ": " + h.value + CRLF
  }

  function HeaderLines(hs: seq<Header>): string {
    if hs == [] then [] else HeaderLine(hs[0]) + HeaderLines(hs[1..])
  }

  function BodyText(m: Msg): string {
    if m.body.Some? then UpToNul(m.body.value) else []
  }

  function Text(m: Msg): string {
    StartLine(m.start) + HeaderLines(m.headers) + CRLF + BodyText(m)
  }

  // ---------------------------------------------------------------- parsing

  /** The start of a message as http_view_parse finds it: pointers to three words, to the headers and to the body. */
  datatype View = View(first: string, second: Option<string>, third: Option<string>, headers: string, body: string)

  /** From the next space on, without leading characters that are not graphic. */
  function NextWord(s: Option<string>): Option<string> {
    if s.None? then None
    else var i := IndexOf(s.value, " "); if i < 0 then None else Some(LTrim(s.value[i..]))
  }

  function ViewOf(buffer: string): Option<View> {
    var e := IndexOf(buffer, HEADERS_END);
    var l := IndexOf(buffer, CRLF);
    if e < 0 || l < 0 then None else Some(ViewAt(buffer, l, e))
  }

  /** The view, given where the first line and the headers end. */
  function ViewAt(buffer: string, l: nat, e: nat): View
    requires l + 2 <= |buffer| && e + 4 <= |buffer|
  {
    var first := LTrim(buffer);
    var second := NextWord(Some(first));
    View(first, second, NextWord(second), buffer[l + 2..], buffer[e + 4..])
  }

  /** `Undefined`: the code follows a null pointer or looks before the start of an empty string. */
  datatype Parsed<T> = NeedMore | Error | Undefined | Done(value: T)

  /** What one round of the loop over the header lines finds: an error, the empty line, an access the code should not
      make, or a header and the lines behind it. */
  datatype Round = Bad | End | Wild | Found(header: Header, rest: string)

  function HeaderRound(s: string): (r: Round)
    ensures r.Found? ==> |r.rest| < |s|
  {
    SkippedIsShorter(s);
    LineRound(SkipBlanks(s))
  }

  /** The same behind the blanks. */
  function LineRound(line: string): (r: Round)
    ensures r.Found? ==> |r.rest| < |line|
  {
    var e := IndexOf(line, CRLF);
    if e < 0 then Bad
    else if e == 0 then End
    else
      var colon := IndexOf(line[..e], ":");
      if colon < 0 then Bad else SplitAt(line, e, colon)
  }

  /** The parts of a line of length `e`, given the colon. */
  function SplitAt(line: string, e: nat, colon: nat): (r: Round)
    requires colon < e && e + 2 <= |line|
    ensures r.Found? ==> |r.rest| < |line|
  {
    Split(line[..colon], line[colon + 1..e], line[e + 2..])
  }

  function Split(name: string, value: string, rest: string): Round {
    if name == [] || LTrim(value) == [] then Wild
    else Found(Header(RTrim(name), RTrim(LTrim(value))), rest)
  }

  /** http_msg_parse_headers: each header goes to the head of the list. */
  function ParseHeaders(s: string, list: seq<Header>): (r: Parsed<seq<Header>>)
    ensures !r.NeedMore?
    decreases |s|
  {
    match HeaderRound(s)
    case Bad => Error
    case End => Done(list)
    case Wild => Undefined
    case Found(header, rest) => ParseHeaders(rest, [header] + list)
  }

  lemma {:induction false} SkippedIsShorter(s: string)
    ensures |SkipBlanks(s)| <= |s|
  {
    if s != [] && Blank(s[0]) {
      SkippedIsShorter(s[1..]);
    }
  }

  function WordOf(s: string): string {
    s[..WordLen(s)]
  }

  function ParseRequestLine(v: View): Parsed<Start> {
    if WordOf(v.first) == [] then Error
    else if v.second.None? then Undefined
    else if WordOf(v.second.value) == [] then Error
    else if v.third.None? then Undefined
    else if WordOf(v.third.value) == [] then Error
    else Done(Request(WordOf(v.first), WordOf(v.second.value), WordOf(v.third.value)))
  }

  function ParseResponseLine(v: View): Parsed<Start> {
    if WordOf(v.first) == [] then Error
    else if v.second.None? then Undefined
    else if WordOf(v.second.value) == [] || Strtol(WordOf(v.second.value)).None? then Error
    else if v.third.None? then Undefined
    else if WordOf(v.third.value) == [] then Error
    else Done(Response(WordOf(v.first), Strtol(WordOf(v.second.value)).value % UINT_LIMIT, WordOf(v.third.value)))
  }

  function StartOf(v: View, request: bool): (r: Parsed<Start>)
    ensures !r.NeedMore?
  {
    if request then ParseRequestLine(v) else ParseResponseLine(v)
  }

  /** The first line decides before the headers do. */
  function Combine(start: Parsed<Start>, headers: Parsed<seq<Header>>, body: string): Parsed<Msg> {
    match start
    case NeedMore => NeedMore
    case Error => Error
    case Undefined => Undefined
    case Done(st) =>
      match headers
      case NeedMore => NeedMore
      case Error => Error
      case Undefined => Undefined
      case Done(hs) => Done(Msg(st, hs, if body == [] then None else Some(body)))
  }

  /** http_msg_parse_request and http_msg_parse_response into a fresh message. */
  function Parse(buffer: string, request: bool): Parsed<Msg> {
    var v := ViewOf(buffer);
    if v.None? then NeedMore
    else Combine(StartOf(v.value, request), ParseHeaders(v.value.headers, []), v.value.body)
  }

  lemma LinesEndWhereHeadersEnd(buffer: string)
    requires Occurs(buffer, HEADERS_END)
    ensures Occurs(buffer, CRLF)
  {
    var i: nat :| OccursAt(buffer, HEADERS_END, i);
    assert buffer[i..i + 2] == buffer[i..i + 4][..2] == CRLF;
    assert OccursAt(buffer, CRLF, i);
  }

  lemma ViewIffEnd(buffer: string)
    ensures ViewOf(buffer).None? <==> !Occurs(buffer, HEADERS_END)
  {
    NotFound(buffer, HEADERS_END);
    NotFound(buffer, CRLF);
    if Occurs(buffer, HEADERS_END) {
      LinesEndWhereHeadersEnd(buffer);
    }
  }

  /** More data is needed iff there is no empty line yet. */
  lemma NeedsMore(buffer: string, request: bool)
    ensures Parse(buffer, request).NeedMore? <==> !Occurs(buffer, HEADERS_END)
  {
    ViewIffEnd(buffer);
    var v := ViewOf(buffer);
    if v.Some? {
      CombinedIsDecided(StartOf(v.value, request), ParseHeaders(v.value.headers, []), v.value.body);
    }
  }

  lemma CombinedIsDecided(start: Parsed<Start>, headers: Parsed<seq<Header>>, body: string)
    requires !start.NeedMore? && !headers.NeedMore?
    ensures !Combine(start, headers, body).NeedMore?
  {
  }

  // ---------------------------------------------------------------- well-formed messages

  predicate IsWord(s: string) {
    s != [] && forall i :: 0 <= i < |s| ==> Graph(s[i])
  }

  predicate WellFormedHeader(h: Header) {
    && h.name != [] && ':' !in h.name && '\r' !in h.name && !Blank(h.name[0]) && (|h.name| == 1 || Graph(h.name[|h.name| - 1]))
    && h.value != [] && '\r' !in h.value && Graph(h.value[0]) && Graph(h.value[|h.value| - 1])
  }

  predicate WellFormed(m: Msg) {
    && (if m.start.Request? then IsWord(m.start.method_) && IsWord(m.start.uri) && IsWord(m.start.version)
        else IsWord(m.start.version) && m.start.status < UINT_LIMIT && IsWord(m.start.reason))
    && (forall i :: 0 <= i < |m.headers| ==> WellFormedHeader(m.headers[i]))
    && (m.body.Some? ==> m.body.value != [] && '\0' !in m.body.value)
  }

  function Reversed(hs: seq<Header>): seq<Header> {
    if hs == [] then [] else Reversed(hs[1..]) + [hs[0]]
  }

  // ---------------------------------------------------------------- round trip

  /** The first place of a string, when its first character does not occur before. */
  lemma {:induction false} IndexBehind(a: string, p: string, b: string)
    requires p != [] && p[0] !in a
    ensures IndexOf(a + p + b, p) == |a|
  {
    var s := a + p + b;
    if a == [] {
      assert s == p + b;
    } else {
      assert s[0] == a[0] != p[0];
      assert s[1..] == a[1..] + p + b;
      IndexBehind(a[1..], p, b);
    }
  }

  lemma {:induction false} WordLenOf(w: string, rest: string)
    requires IsWord(w) && (rest != [] ==> !Graph(rest[0]))
    ensures WordLen(w + rest) == |w|
  {
    assert (w + rest)[1..] == w[1..] + rest;
    if |w| == 1 {
      assert w[1..] + rest == rest;
    } else {
      WordLenOf(w[1..], rest);
    }
  }

  lemma LTrimSpace(v: string)
    requires v != [] && Graph(v[0])
    ensures LTrim(" " + v) == v
  {
    assert (" " + v)[1..] == v;
  }

  /** A word, a space, and a further word. */
  lemma WordThenWord(w: string, next: string, rest: string)
    requires IsWord(w) && IsWord(next)
    ensures var s := w + " " + (next + rest);
            LTrim(s) == s && WordOf(s) == w && NextWord(Some(s)) == Some(next + rest)
  {
    var tail := next + rest;
    var s := w + " " + tail;
    assert s == w + (" " + tail) && s[0] == w[0];
    WordLenOf(w, " " + tail);
    assert s[..|w|] == w;
    IndexBehind(w, " ", tail);
    assert s[|w|..] == " " + tail;
    LTrimSpace(tail);
  }

  lemma WordThenRest(w: string, rest: string)
    requires IsWord(w) && rest != [] && !Graph(rest[0])
    ensures WordOf(w + rest) == w
  {
    WordLenOf(w, rest);
    assert (w + rest)[..|w|] == w;
  }

  /** The three words of a start line. */
  lemma ThreeWords(a: string, b: string, c: string, rest: string)
    requires IsWord(a) && IsWord(b) && IsWord(c) && rest != [] && !Graph(rest[0])
    ensures var s2 := b + " " + (c + rest);
            var s := a + " " + s2;
            && LTrim(s) == s && WordOf(s) == a
            && NextWord(Some(s)) == Some(s2) && WordOf(s2) == b
            && NextWord(Some(s2)) == Some(c + rest) && WordOf(c + rest) == c
  {
    WordThenWord(b, c, rest);
    WordThenRest(c, rest);
    assert b + " " + (c + rest) == b + (" " + (c + rest));
    WordThenWord(a, b, " " + (c + rest));
  }

  // the headers

  /** Where the parts of a header line are. */
  lemma HeaderShape(h: Header, rest: string)
    requires WellFormedHeader(h)
    ensures var s, n, e := HeaderLine(h) + rest, |h.name|, |h.name| + 2 + |h.value|;
            && SkipBlanks(s) == s && IndexOf(s, CRLF) == e && e + 2 <= |s| && s[e + 2..] == rest
            && s[..e] == h.name + ":" + (" " + h.value)
            && s[..n] == h.name && s[n + 1..e] == " " + h.value
  {
    var inner := h.name + ": " + h.value;
    var s := HeaderLine(h) + rest;
    assert s == inner + CRLF + rest && s[0] == h.name[0];
    IndexBehind(inner, CRLF, rest);
    assert inner == h.name + ":" + (" " + h.value);
  }

  lemma TrimmedAlready(h: Header)
    requires WellFormedHeader(h)
    ensures RTrim(h.name) == h.name && RTrim(h.value) == h.value && LTrim(" " + h.value) == h.value
  {
    LTrimSpace(h.value);
  }

  lemma FoundAt(s: string, e: nat, colon: nat)
    requires IndexOf(s, CRLF) == e && IndexOf(s[..e], ":") == colon
    ensures colon < e && e + 2 <= |s|
    ensures e > 0 ==> LineRound(s) == SplitAt(s, e, colon)
  {
  }

  /** One header line, followed by anything. */
  lemma HeaderParses(h: Header, rest: string)
    requires WellFormedHeader(h)
    ensures HeaderRound(HeaderLine(h) + rest) == Found(h, rest)
  {
    HeaderShape(h, rest);
    IndexBehind(h.name, ":", " " + h.value);
    TrimmedAlready(h);
    FoundAt(HeaderLine(h) + rest, |h.name| + 2 + |h.value|, |h.name|);
  }

  lemma EmptyLineEnds(body: string)
    ensures HeaderRound(CRLF + body) == End
  {
    IndexBehind([], CRLF, body);
    assert [] + CRLF + body == CRLF + body;
  }

  lemma {:induction false} HeadersParse(hs: seq<Header>, body: string, list: seq<Header>)
    requires forall i :: 0 <= i < |hs| ==> WellFormedHeader(hs[i])
    ensures ParseHeaders(HeaderLines(hs) + CRLF + body, list) == Done(Reversed(hs) + list)
  {
    if hs == [] {
      EmptyLineEnds(body);
      assert HeaderLines(hs) + CRLF + body == CRLF + body && Reversed(hs) + list == list;
    } else {
      Regroup4(HeaderLine(hs[0]), HeaderLines(hs[1..]), CRLF, body);
      HeaderParses(hs[0], HeaderLines(hs[1..]) + CRLF + body);
      HeadersParse(hs[1..], body, [hs[0]] + list);
      ListGrows(Reversed(hs[1..]), hs[0], list);
    }
  }

  lemma Regroup4(a: string, b: string, c: string, d: string)
    ensures a + b + c + d == a + (b + c + d)
  {
  }

  lemma ListGrows(a: seq<Header>, h: Header, list: seq<Header>)
    ensures a + ([h] + list) == (a + [h]) + list
  {
  }

  // the end of the headers

  lemma SkipEmptyLine(next: string)
    requires next != [] && next[0] != '\r' && IndexOf(next, HEADERS_END) >= 0
    ensures IndexOf(CRLF + next, HEADERS_END) == 2 + IndexOf(next, HEADERS_END)
  {
    var s := CRLF + next;
    assert s[2] == next[0] && s[1] == '\n' && s[1..][0] == '\n';
    assert s[1..][1..] == next;
  }

  /** A line that is followed by another one that is not empty does not end the headers. */
  lemma {:induction false} SkipLine(line: string, next: string)
    requires '\r' !in line && next != [] && next[0] != '\r' && IndexOf(next, HEADERS_END) >= 0
    ensures IndexOf(line + CRLF + next, HEADERS_END) == |line| + 2 + IndexOf(next, HEADERS_END)
  {
    var s := line + CRLF + next;
    if line == [] {
      assert s == CRLF + next;
      SkipEmptyLine(next);
    } else {
      assert s[0] == line[0];
      assert s[1..] == line[1..] + CRLF + next;
      SkipLine(line[1..], next);
    }
  }

  function Lines(line: string, hs: seq<Header>, body: string): string {
    line + CRLF + (HeaderLines(hs) + CRLF + body)
  }

  function Inner(h: Header): string {
    h.name + ": " + h.value
  }

  lemma {:induction false} EndOfHeaders(line: string, hs: seq<Header>, body: string)
    requires line != [] && '\r' !in line && forall i :: 0 <= i < |hs| ==> WellFormedHeader(hs[i])
    ensures IndexOf(Lines(line, hs, body), HEADERS_END) == |line| + |HeaderLines(hs)|
    decreases hs
  {
    if hs == [] {
      assert Lines(line, hs, body) == line + HEADERS_END + body;
      IndexBehind(line, HEADERS_END, body);
    } else {
      var h := hs[0];
      var next := Lines(Inner(h), hs[1..], body);
      assert '\r' !in Inner(h) && Inner(h)[0] == h.name[0] && next[0] == h.name[0];
      assert h.name[0] in h.name;
      EndOfHeaders(Inner(h), hs[1..], body);
      assert HeaderLines(hs) + CRLF + body == next;
      SkipLine(line, next);
    }
  }

  // the whole

  lemma {:induction false} DigitsAreGraphic(n: nat)
    ensures IsWord(Dec(n))
  {
    DecRoundTrip(n);
  }

  function Line(a: string, b: string, c: string): string {
    a + " " + b + " " + c
  }

  lemma WordsOfLine(a: string, b: string, c: string, tail: string)
    requires IsWord(a) && IsWord(b) && IsWord(c)
    ensures var s := Line(a, b, c) + CRLF + tail;
            && WordOf(LTrim(s)) == a && NextWord(Some(LTrim(s))).Some?
            && WordOf(NextWord(Some(LTrim(s))).value) == b && NextWord(NextWord(Some(LTrim(s)))).Some?
            && WordOf(NextWord(NextWord(Some(LTrim(s)))).value) == c
  {
    assert Line(a, b, c) + CRLF + tail == a + " " + (b + " " + (c + (CRLF + tail)));
    ThreeWords(a, b, c, CRLF + tail);
  }

  lemma NoReturn(a: string, b: string, c: string)
    requires IsWord(a) && IsWord(b) && IsWord(c)
    ensures '\r' !in Line(a, b, c) && Line(a, b, c) != []
  {
  }

  lemma EndsOfLine(line: string, hs: seq<Header>, body: string)
    requires line != [] && '\r' !in line && forall i :: 0 <= i < |hs| ==> WellFormedHeader(hs[i])
    ensures var s, tail := Lines(line, hs, body), HeaderLines(hs) + CRLF + body;
            && IndexOf(s, CRLF) == |line| && s[|line| + 2..] == tail
            && IndexOf(s, HEADERS_END) == |line| + |HeaderLines(hs)|
            && s[|line| + |HeaderLines(hs)| + 4..] == body
  {
    EndOfHeaders(line, hs, body);
    IndexBehind(line, CRLF, HeaderLines(hs) + CRLF + body);
  }

  lemma ViewWords(s: string, l: nat, e: nat, a: string, b: string, c: string)
    requires l + 2 <= |s| && e + 4 <= |s|
    requires WordOf(LTrim(s)) == a && NextWord(Some(LTrim(s))).Some?
    requires WordOf(NextWord(Some(LTrim(s))).value) == b && NextWord(NextWord(Some(LTrim(s)))).Some?
    requires WordOf(NextWord(NextWord(Some(LTrim(s)))).value) == c
    ensures var v := ViewAt(s, l, e);
            && WordOf(v.first) == a
            && v.second.Some? && WordOf(v.second.value) == b
            && v.third.Some? && WordOf(v.third.value) == c
  {
  }

  lemma ViewIs(s: string, l: nat, e: nat, a: string, b: string, c: string)
    requires IndexOf(s, CRLF) == l && IndexOf(s, HEADERS_END) == e
    requires WordOf(LTrim(s)) == a && NextWord(Some(LTrim(s))).Some?
    requires WordOf(NextWord(Some(LTrim(s))).value) == b && NextWord(NextWord(Some(LTrim(s)))).Some?
    requires WordOf(NextWord(NextWord(Some(LTrim(s)))).value) == c
    ensures l + 2 <= |s| && e + 4 <= |s| && ViewOf(s).Some?
    ensures var v := ViewOf(s).value;
            && WordOf(v.first) == a
            && v.second.Some? && WordOf(v.second.value) == b
            && v.third.Some? && WordOf(v.third.value) == c
            && v.headers == s[l + 2..] && v.body == s[e + 4..]
  {
    assert ViewOf(s) == Some(ViewAt(s, l, e));
    ViewWords(s, l, e, a, b, c);
  }

  lemma ViewOfLines(a: string, b: string, c: string, hs: seq<Header>, body: string)
    requires IsWord(a) && IsWord(b) && IsWord(c) && forall i :: 0 <= i < |hs| ==> WellFormedHeader(hs[i])
    ensures var v := ViewOf(Lines(Line(a, b, c), hs, body));
            && v.Some? && WordOf(v.value.first) == a
            && v.value.second.Some? && WordOf(v.value.second.value) == b
            && v.value.third.Some? && WordOf(v.value.third.value) == c
            && v.value.headers == HeaderLines(hs) + CRLF + body && v.value.body == body
  {
    var line := Line(a, b, c);
    NoReturn(a, b, c);
    EndsOfLine(line, hs, body);
    WordsOfLine(a, b, c, HeaderLines(hs) + CRLF + body);
    ViewIs(Lines(line, hs, body), |line|, |line| + |HeaderLines(hs)|, a, b, c);
  }

  lemma TextIsLines(m: Msg)
    ensures var w := Words(m.start); Text(m) == Lines(Line(w[0], w[1], w[2]), m.headers, BodyText(m))
  {
    var w := Words(m.start);
    Regroup(Line(w[0], w[1], w[2]), CRLF, HeaderLines(m.headers), CRLF, BodyText(m));
  }

  lemma Regroup(a: string, b: string, c: string, d: string, e: string)
    ensures a + b + c + d + e == a + b + (c + d + e)
  {
  }

  lemma WordsParse(m: Msg, v: View)
    requires WellFormed(m)
    requires var w := Words(m.start);
             && WordOf(v.first) == w[0] && v.second.Some? && WordOf(v.second.value) == w[1]
             && v.third.Some? && WordOf(v.third.value) == w[2]
    ensures StartOf(v, m.start.Request?) == Done(m.start)
  {
    if m.start.Response? {
      DecRoundTrip(m.start.status);
    }
  }

  lemma WordsAreWords(s: Start)
    requires if s.Request? then IsWord(s.method_) && IsWord(s.uri) && IsWord(s.version) else IsWord(s.version) && IsWord(s.reason)
    ensures IsWord(Words(s)[0]) && IsWord(Words(s)[1]) && IsWord(Words(s)[2])
  {
    if s.Response? {
      DigitsAreGraphic(s.status);
    }
  }

  lemma BodyIsText(m: Msg)
    requires WellFormed(m)
    ensures m.body == if BodyText(m) == [] then None else Some(BodyText(m))
  {
    if m.body.Some? {
      NoNul(m.body.value);
    }
  }

  /** What the parser finds in the printed text. */
  lemma ViewOfText(m: Msg)
    requires WellFormed(m)
    ensures var v := ViewOf(Text(m));
            && v.Some? && v.value.body == BodyText(m)
            && StartOf(v.value, m.start.Request?) == Done(m.start)
            && v.value.headers == HeaderLines(m.headers) + CRLF + BodyText(m)
  {
    var w := Words(m.start);
    WordsAreWords(m.start);
    TextIsLines(m);
    ViewOfLines(w[0], w[1], w[2], m.headers, BodyText(m));
    WordsParse(m, ViewOf(Text(m)).value);
  }

  /** What the parser does with what it finds. */
  lemma ParseOf(buffer: string, m: Msg, v: View)
    requires WellFormed(m) && ViewOf(buffer) == Some(v)
    requires StartOf(v, m.start.Request?) == Done(m.start)
    requires v.headers == HeaderLines(m.headers) + CRLF + v.body && v.body == BodyText(m)
    ensures Parse(buffer, m.start.Request?) == Done(m.(headers := Reversed(m.headers)))
  {
    BodyIsText(m);
    HeadersParseFromNone(m.headers, v.body);
  }

  lemma HeadersParseFromNone(hs: seq<Header>, body: string)
    requires forall i :: 0 <= i < |hs| ==> WellFormedHeader(hs[i])
    ensures ParseHeaders(HeaderLines(hs) + CRLF + body, []) == Done(Reversed(hs))
  {
    HeadersParse(hs, body, []);
    assert Reversed(hs) + [] == Reversed(hs);
  }

  /** Whatever is printed of a well-formed message parses back: the headers in reverse order, everything else as it was. */
  lemma RoundTrip(m: Msg)
    requires WellFormed(m)
    ensures Parse(Text(m), m.start.Request?) == Done(m.(headers := Reversed(m.headers)))
  {
    ViewOfText(m);
    ParseOf(Text(m), m, ViewOf(Text(m)).value);
  }

  lemma {:induction false} ReversedAppend(a: seq<Header>, h: Header)
    ensures Reversed(a + [h]) == [h] + Reversed(a)
  {
    if a == [] {
      assert a + [h] == [h];
    } else {
      assert (a + [h])[1..] == a[1..] + [h];
      ReversedAppend(a[1..], h);
    }
  }

  lemma {:induction false} ReversedTwice(hs: seq<Header>)
    ensures Reversed(Reversed(hs)) == hs && |Reversed(hs)| == |hs|
    ensures forall h :: h in Reversed(hs) <==> h in hs
  {
    if hs != [] {
      ReversedTwice(hs[1..]);
      ReversedAppend(Reversed(hs[1..]), hs[0]);
    }
  }

  /** Parsed, the string gives the message, but for the order of its headers. */
  predicate ParsesBack(m: Msg, s: string) {
    Parse(s, m.start.Request?) == Done(m.(headers := Reversed(m.headers)))
  }

  /** So a buffer that holds the text of a message parses back iff the text is terminated: otherwise what follows in the
      buffer is taken for a body. */
  lemma BufferParses(m: Msg, s: string)
    requires WellFormed(m) && '\0' !in Text(m)
    requires |Text(m)| < |s| && s[..|Text(m)|] == Text(m) && (m.body.Some? ==> s[|Text(m)|] == '\0')
    ensures ParsesBack(m, UpToNul(s)) <==> s[|Text(m)|] == '\0'
  {
    CStringInBuffer(Text(m), s);
    if s[|Text(m)|] == '\0' {
      RoundTrip(m);
    } else {
      var extra := UpToNul(s[|Text(m)|..]);
      UpToNulHasNone(s[|Text(m)|..]);
      OtherBody(m, extra);
    }
  }

  lemma OtherBody(m: Msg, extra: string)
    requires WellFormed(m) && m.body.None? && extra != [] && '\0' !in extra
    ensures !ParsesBack(m, Text(m) + extra)
  {
    var n := m.(body := Some(extra));
    NoNul(extra);
    assert Text(m) + extra == Text(n) by {
      assert Text(m) == StartLine(m.start) + HeaderLines(m.headers) + CRLF;
    }
    RoundTrip(n);
  }

  lemma StillWellFormed(m: Msg)
    requires WellFormed(m)
    ensures WellFormed(m.(headers := Reversed(m.headers)))
  {
    ReversedTwice(m.headers);
    var hs := Reversed(m.headers);
    forall i | 0 <= i < |hs| ensures WellFormedHeader(hs[i]) {
      assert hs[i] in m.headers;
    }
  }

  /** Printing and parsing twice restores the message. */
  lemma TwoRoundTrips(m: Msg)
    requires WellFormed(m)
    ensures var once := Parse(Text(m), m.start.Request?);
            once.Done? && WellFormed(once.value) && Parse(Text(once.value), m.start.Request?) == Done(m)
  {
    var n := m.(headers := Reversed(m.headers));
    StillWellFormed(m);
    assert n.(headers := Reversed(n.headers)) == m by {
      ReversedTwice(m.headers);
    }
    RoundTrip(m);
    RoundTrip(n);
  }

  // ---------------------------------------------------------------- room

  /** What the code reserves for the first line: the length of the format string counts as well. */
  function StartEstimate(s: Start): nat {
    if s.Request? then 10 + |s.method_| + |s.uri| + |s.version| else 10 + |s.version| + 3 + |s.reason|
  }

  function HeaderEstimate(h: Header): nat {
    8 + |h.name| + |h.value|
  }

  predicate BodyFits(m: Msg, left: int) {
    m.body.Some? ==> 2 + |m.body.value| + 1 < left
  }

  predicate HeadersFit(m: Msg, hs: seq<Header>, left: int) {
    if hs == [] then 2 < left && BodyFits(m, left - 2)
    else HeaderEstimate(hs[0]) < left && HeadersFit(m, hs[1..], left - |HeaderLine(hs[0])|)
  }

  /** The message passes every size test of the serializer. */
  predicate Fits(m: Msg, room: nat) {
    StartEstimate(m.start) < room && HeadersFit(m, m.headers, room - |StartLine(m.start)|)
  }

  lemma {:induction false} DecLength(n: nat, k: nat)
    requires 0 < k && n < Power10(k)
    ensures |Dec(n)| <= k
  {
    if n >= 10 {
      assert k > 1;
      DecLength(n / 10, k - 1);
    }
  }

  function Power10(k: nat): nat {
    if k == 0 then 1 else 10 * Power10(k - 1)
  }

  /** The estimate covers the line, but for a status of ten digits, where it is one too small. */
  lemma StartLength(s: Start)
    requires s.Response? ==> s.status < UINT_LIMIT
    ensures |StartLine(s)| <= StartEstimate(s) <==> !(s.Response? && s.status >= 1_000_000_000)
    ensures s.Response? && s.status >= 1_000_000_000 ==> |StartLine(s)| == StartEstimate(s) + 1
  {
    if s.Response? {
      assert Power10(9) == 1_000_000_000 by {
        assert Power10(3) == 1000;
        assert Power10(6) == 1000_000;
      }
      if s.status >= 1_000_000_000 {
        DecLength(s.status, 10);
        DecLonger(s.status, 9);
      } else {
        DecLength(s.status, 9);
      }
    }
  }

  lemma {:induction false} DecLonger(n: nat, k: nat)
    requires n >= Power10(k)
    ensures |Dec(n)| > k
  {
    if k > 0 {
      DecLonger(n / 10, k - 1);
    }
  }

  /** A message that passes every test fits, its text and a further byte: nothing printed is cut off. */
  lemma FittingIsWhole(m: Msg, room: nat)
    requires Fits(m, room)
    ensures |Text(m)| < room
  {
    HeadersRoom(m, m.headers, room - |StartLine(m.start)|);
    if m.body.Some? {
      UpToNulLength(m.body.value);
    }
  }

  /** Behind the first line: four bytes more than is to come are always enough, and no more than that never is. */
  lemma {:induction false} HeadersRoom(m: Msg, hs: seq<Header>, left: int)
    ensures var need := |HeaderLines(hs)| + 2 + (if m.body.Some? then |m.body.value| else 0);
            && (need + 4 <= left ==> HeadersFit(m, hs, left))
            && (HeadersFit(m, hs, left) ==> need < left)
  {
    if hs != [] {
      HeadersRoom(m, hs[1..], left - |HeaderLine(hs[0])|);
    }
  }

  // ---------------------------------------------------------------- the code

  function Min(a: nat, b: nat): nat {
    if a < b then a else b
  }

  /** snprintf: at most `left` bytes, the last one a NUL. */
  method Print(buffer: array<char>, offset: nat, left: nat, text: string)
    requires offset + left <= buffer.Length && left > 0
    modifies buffer
    ensures var n := Min(|text|, left - 1); buffer[offset..offset + n] == text[..n] && buffer[offset + n] == '\0'
    ensures buffer[..offset] == old(buffer[..offset])
    ensures forall j :: offset + |text| < j < buffer.Length ==> buffer[j] == old(buffer[j])
  {
    var n := Min(|text|, left - 1);
    ghost var front := buffer[..offset];
    forall k | 0 <= k < n {
      buffer[offset + k] := text[k];
    }
    buffer[offset + n] := '\0';
    forall k | 0 <= k < n ensures buffer[offset..offset + n][k] == text[k] {
      assert buffer[offset..offset + n][k] == buffer[offset + k];
    }
    assert buffer[..offset] == front;
  }

  /** http_msg_serialize into a buffer of less than 2 GB. */
  method Serialize(m: Msg, buffer: array<char>) returns (ret: int)
    requires buffer.Length < 0x8000_0000 && (m.start.Response? ==> m.start.status < UINT_LIMIT)
    modifies buffer
    ensures ret == if Fits(m, buffer.Length) then |Text(m)| else -1
    ensures ret >= 0 ==> ret < buffer.Length && buffer[..ret] == Text(m)
    ensures ret >= 0 ==> buffer[ret] == if m.body.Some? then '\0' else old(buffer[ret])
    ensures ret >= 0 ==> forall j :: ret < j < buffer.Length ==> buffer[j] == old(buffer[j])
    ensures ret >= 0 && WellFormed(m) && '\0' !in Text(m) ==>
              (ParsesBack(m, UpToNul(buffer[..])) <==> m.body.Some? || old(buffer[ret]) == '\0')
  {
    ret := PrintMsg(m, buffer);
    if ret >= 0 && WellFormed(m) && '\0' !in Text(m) {
      BufferParses(m, buffer[..]);
    }
  }

  method PrintMsg(m: Msg, buffer: array<char>) returns (ret: int)
    requires buffer.Length < 0x8000_0000 && (m.start.Response? ==> m.start.status < UINT_LIMIT)
    modifies buffer
    ensures ret == if Fits(m, buffer.Length) then |Text(m)| else -1
    ensures ret >= 0 ==> ret < buffer.Length && buffer[..ret] == Text(m)
    ensures ret >= 0 ==> buffer[ret] == if m.body.Some? then '\0' else old(buffer[ret])
    ensures ret >= 0 ==> forall j :: ret < j < buffer.Length ==> buffer[j] == old(buffer[j])
  {
    if StartEstimate(m.start) >= buffer.Length {
      return -1;
    }
    StartLength(m.start);
    Print(buffer, 0, buffer.Length, StartLine(m.start));
    ret := PrintHeaders(m, buffer, |StartLine(m.start)|);
  }

  /** What has been printed, as long as there is room for more. */
  ghost predicate Printed(buffer: array<char>, offset: nat, text: string)
    reads buffer
  {
    offset <= buffer.Length && (offset < buffer.Length ==> buffer[..offset] == text)
  }

  /** The first line and the first `i` header lines. */
  function SoFar(m: Msg, i: nat): string
    requires i <= |m.headers|
  {
    StartLine(m.start) + HeaderLines(m.headers[..i])
  }

  lemma SoFarEnds(m: Msg)
    ensures SoFar(m, 0) == StartLine(m.start)
    ensures SoFar(m, |m.headers|) == StartLine(m.start) + HeaderLines(m.headers)
    ensures m.headers[0..] == m.headers && m.headers[|m.headers|..] == []
  {
    assert m.headers[..|m.headers|] == m.headers;
  }

  /** The loop over the headers, and the rest. */
  method PrintHeaders(m: Msg, buffer: array<char>, start: nat) returns (ret: int)
    requires start == |StartLine(m.start)| && Printed(buffer, start, StartLine(m.start))
    modifies buffer
    ensures ret == if HeadersFit(m, m.headers, buffer.Length - start) then |Text(m)| else -1
    ensures ret >= 0 ==> ret < buffer.Length && buffer[..ret] == Text(m)
    ensures ret >= 0 ==> buffer[ret] == if m.body.Some? then '\0' else old(buffer[ret])
    ensures ret >= 0 ==> forall j :: ret < j < buffer.Length ==> buffer[j] == old(buffer[j])
  {
    var offset: nat, i: nat := start, 0;
    SoFarEnds(m);
    while i < |m.headers|
      invariant i <= |m.headers|
      invariant HeadersFit(m, m.headers, buffer.Length - start) <==> HeadersFit(m, m.headers[i..], buffer.Length - offset)
      invariant Printed(buffer, offset, SoFar(m, i)) && offset == |SoFar(m, i)|
      invariant forall j :: offset < j < buffer.Length ==> buffer[j] == old(buffer[j])
    {
      var h := m.headers[i];
      FitsOneMore(m, i, buffer.Length - offset);
      if HeaderEstimate(h) >= buffer.Length - offset {
        return -1;
      }
      offset := PrintHeader(m, buffer, i, offset);
      i := i + 1;
    }
    ret := Finish(m, buffer, offset);
  }

  /** A piece that fits, behind what is there. */
  method PrintMore(buffer: array<char>, offset: nat, piece: string, ghost text: string)
    requires Printed(buffer, offset, text) && offset + |piece| < buffer.Length
    modifies buffer
    ensures Printed(buffer, offset + |piece|, text + piece) && buffer[offset + |piece|] == '\0'
    ensures forall j :: offset + |piece| < j < buffer.Length ==> buffer[j] == old(buffer[j])
  {
    Print(buffer, offset, buffer.Length - offset, piece);
    assert buffer[..offset + |piece|] == buffer[..offset] + buffer[offset..offset + |piece|];
    assert piece[..|piece|] == piece;
  }

  lemma Assoc(a: string, b: string, c: string)
    ensures a + (b + c) == a + b + c
  {
  }

  /** The loop body: a header line behind what is there. */
  method PrintHeader(m: Msg, buffer: array<char>, i: nat, offset: nat) returns (next: nat)
    requires i < |m.headers| && offset + |HeaderLine(m.headers[i])| < buffer.Length
    requires Printed(buffer, offset, SoFar(m, i))
    modifies buffer
    ensures next == offset + |HeaderLine(m.headers[i])|
    ensures |SoFar(m, i + 1)| == |SoFar(m, i)| + |HeaderLine(m.headers[i])|
    ensures Printed(buffer, next, SoFar(m, i + 1))
    ensures forall j :: next < j < buffer.Length ==> buffer[j] == old(buffer[j])
  {
    PrintedSoFar(m, i);
    PrintMore(buffer, offset, HeaderLine(m.headers[i]), SoFar(m, i));
    next := offset + |HeaderLine(m.headers[i])|;
  }

  lemma FitsOneMore(m: Msg, i: nat, left: int)
    requires i < |m.headers|
    ensures HeadersFit(m, m.headers[i..], left)
            <==> HeaderEstimate(m.headers[i]) < left && HeadersFit(m, m.headers[i + 1..], left - |HeaderLine(m.headers[i])|)
  {
    assert m.headers[i..][0] == m.headers[i] && m.headers[i..][1..] == m.headers[i + 1..];
  }

  /** One more header line. */
  lemma PrintedSoFar(m: Msg, i: nat)
    requires i < |m.headers|
    ensures SoFar(m, i + 1) == SoFar(m, i) + HeaderLine(m.headers[i])
  {
    HeaderLinesSnoc(m.headers[..i], m.headers[i]);
    assert m.headers[..i + 1] == m.headers[..i] + [m.headers[i]];
    Assoc(StartLine(m.start), HeaderLines(m.headers[..i]), HeaderLine(m.headers[i]));
  }

  lemma {:induction false} HeaderLinesSnoc(hs: seq<Header>, h: Header)
    ensures HeaderLines(hs + [h]) == HeaderLines(hs) + HeaderLine(h)
  {
    if hs == [] {
      assert hs + [h] == [h];
    } else {
      assert (hs + [h])[1..] == hs[1..] + [h];
      HeaderLinesSnoc(hs[1..], h);
      Assoc(HeaderLine(hs[0]), HeaderLines(hs[1..]), HeaderLine(h));
    }
  }

  /** The empty line and the body. */
  method Finish(m: Msg, buffer: array<char>, offset0: nat) returns (ret: int)
    requires offset0 == |StartLine(m.start) + HeaderLines(m.headers)|
    requires Printed(buffer, offset0, StartLine(m.start) + HeaderLines(m.headers))
    modifies buffer
    ensures ret == if HeadersFit(m, [], buffer.Length - offset0) then |Text(m)| else -1
    ensures ret >= 0 ==> ret < buffer.Length && buffer[..ret] == Text(m)
    ensures ret >= 0 ==> buffer[ret] == if m.body.Some? then '\0' else old(buffer[ret])
    ensures ret >= 0 ==> forall j :: ret < j < buffer.Length ==> buffer[j] == old(buffer[j])
  {
    if 2 >= buffer.Length - offset0 {
      return -1;
    }
    buffer[offset0], buffer[offset0 + 1] := '\r', '\n';
    var offset := offset0 + 2;
    assert buffer[..offset] == StartLine(m.start) + HeaderLines(m.headers) + CRLF;
    if m.body.Some? {
      if 2 + |m.body.value| + 1 >= buffer.Length - offset {
        return -1;
      }
      UpToNulLength(m.body.value);
      PrintMore(buffer, offset, UpToNul(m.body.value), StartLine(m.start) + HeaderLines(m.headers) + CRLF);
      offset := offset + |UpToNul(m.body.value)|;
    } else {
      assert Text(m) == StartLine(m.start) + HeaderLines(m.headers) + CRLF;
    }
    return offset;
  }

  /** One round of the loop: the header line at the start of `s`. */
  method ReadHeader(s: string) returns (r: Round)
    requires !HeaderRound(s).Wild?
    ensures r == HeaderRound(s)
  {
    var n := XstrSpaceLen(s);
    var line := s[n..];
    var e := IndexOf(line, CRLF);
    if e < 0 {
      return Bad;
    }
    if e == 0 {
      return End;
    }
    var colon := IndexOf(line[..e], ":");
    if colon < 0 {
      return Bad;
    }
    var name := Xstrrtrim(line[..colon]);
    var v := Xstrltrim(line[colon + 1..e]);
    var value := Xstrrtrim(line[colon + 1..e][v..]);
    return Found(Header(name, value), line[e + 2..]);
  }

  /** The loop of http_msg_parse_headers; the result is 1 or -1. */
  method ParseHeaderLines(s: string) returns (ret: int, list: seq<Header>)
    requires !ParseHeaders(s, []).Undefined?
    ensures ret == if ParseHeaders(s, []).Done? then 1 else -1
    ensures ret == 1 ==> ParseHeaders(s, []) == Done(list)
  {
    var lineStart := s;
    list := [];
    while true
      invariant ParseHeaders(lineStart, list) == ParseHeaders(s, [])
      decreases |lineStart|
    {
      var r := ReadHeader(lineStart);
      if r.Bad? {
        return -1, list;
      }
      if r.End? {
        return 1, list;
      }
      list := [r.header] + list;
      lineStart := r.rest;
    }
  }

  /** The words of a request line. */
  method RequestWords(v: View) returns (ok: bool, start: Start)
    requires !ParseRequestLine(v).Undefined?
    ensures if ok then ParseRequestLine(v) == Done(start) else ParseRequestLine(v).Error?
  {
    start := Request("", "", "");
    var len := XstrWordLen(v.first);
    if len == 0 {
      return false, start;
    }
    var method_ := v.first[..len];
    len := XstrWordLen(v.second.value);
    if len == 0 {
      return false, start;
    }
    var uri := v.second.value[..len];
    len := XstrWordLen(v.third.value);
    if len == 0 {
      return false, start;
    }
    return true, Request(method_, uri, v.third.value[..len]);
  }

  /** The words of a status line. */
  method ResponseWords(v: View) returns (ok: bool, start: Start)
    requires !ParseResponseLine(v).Undefined?
    ensures if ok then ParseResponseLine(v) == Done(start) else ParseResponseLine(v).Error?
  {
    start := Request("", "", "");
    var len := XstrWordLen(v.first);
    if len == 0 {
      return false, start;
    }
    var version := v.first[..len];
    len := XstrWordLen(v.second.value);
    if len == 0 {
      return false, start;
    }
    var code := Strtol(v.second.value[..len]);
    if code.None? {
      return false, start;
    }
    len := XstrWordLen(v.third.value);
    if len == 0 {
      return false, start;
    }
    return true, Response(version, code.value % UINT_LIMIT, v.third.value[..len]);
  }

  /** http_msg_parse_request and http_msg_parse_response: 1, -1 for an error, 0 when more data is needed. */
  method ParseMessage(buffer: string, request: bool) returns (ret: int, msg: Option<Msg>)
    requires !Parse(buffer, request).Undefined?
    ensures ret == match Parse(buffer, request) case Done(_) => 1 case NeedMore => 0 case _ => -1
    ensures ret == 0 <==> !Occurs(buffer, HEADERS_END)
    ensures msg == if Parse(buffer, request).Done? then Some(Parse(buffer, request).value) else None
  {
    NeedsMore(buffer, request);
    var view := ViewOf(buffer);
    if view.None? {
      return 0, None;
    }
    var v := view.value;
    var ok, start := StartWords(v, request);
    if !ok {
      return -1, None;
    }
    ret, msg := HeadersAndBody(v, start);
  }

  method StartWords(v: View, request: bool) returns (ok: bool, start: Start)
    requires !StartOf(v, request).Undefined?
    ensures if ok then StartOf(v, request) == Done(start) else StartOf(v, request).Error?
  {
    if request {
      ok, start := RequestWords(v);
    } else {
      ok, start := ResponseWords(v);
    }
  }

  method HeadersAndBody(v: View, start: Start) returns (ret: int, msg: Option<Msg>)
    requires !ParseHeaders(v.headers, []).Undefined?
    ensures ret == if ParseHeaders(v.headers, []).Done? then 1 else -1
    ensures msg == if ret == 1 then Some(Combine(Done(start), ParseHeaders(v.headers, []), v.body).value) else None
  {
    var r, list := ParseHeaderLines(v.headers);
    if r < 0 {
      return -1, None;
    }
    return 1, Some(Msg(start, list, if v.body == [] then None else Some(v.body)));
  }
}

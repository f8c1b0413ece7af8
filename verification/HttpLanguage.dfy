/** The language of whole requests: for which byte streams the parser gives
    which verdict, stated without the parser. */
module HttpLanguage {
  import opened CStrings
  import opened Options
  import opened Order
  import opened RequestLine
  import opened HttpParse

  predicate Clean(s: string) {
    forall i :: 0 <= i < |s| ==> !IsEol(s[i])
  }

  /** The line as the string routines see it: up to its first NUL, if any. */
  function Text(line: string): string {
    CStr(line, 0)
  }

  ghost predicate GoodLine(check: CheckState, line: string) {
    && Clean(line)
    && match check
       case InRequestLine => ValidRequestLine(Text(line))
       case InHeader => Text(line) != ""
  }

  /** A request line (unless it was seen before) and then non-empty headers. */
  ghost predicate Block(check: CheckState, lines: seq<string>)
    decreases |lines|
  {
    lines != [] ==> GoodLine(check, lines[0]) && Block(InHeader, lines[1..])
  }

  function Wire(lines: seq<string>): string {
    if lines == [] then "" else lines[0] + CRLF + Wire(lines[1..])
  }

  /** `d` is a block, then an empty line `e`, then anything. */
  ghost predicate AcceptedBy(check: CheckState, d: string, lines: seq<string>, e: string, rest: string) {
    && (check == InRequestLine ==> lines != [])
    && Block(check, lines) && Clean(e) && Text(e) == ""
    && d == Wire(lines) + e + CRLF + rest
  }

  /** `d` is a block, then a piece `p` of a line, then what makes it invalid:
      an LF, a CR without an LF, or the end of a bad request line. */
  ghost predicate RejectedBy(check: CheckState, d: string, lines: seq<string>, p: string, tail: string) {
    && Block(check, lines) && Clean(p)
    && d == Wire(lines) + p + tail
    && (|| (|tail| >= 1 && tail[0] == LF)
        || (|tail| >= 2 && tail[0] == CR && tail[1] != LF)
        || (|tail| >= 2 && tail[..2] == CRLF && check == InRequestLine && lines == [] && !ValidRequestLine(Text(p))))
  }

  /** `d` is a block, then an unfinished line: clean text and perhaps its CR. */
  ghost predicate UndecidedBy(check: CheckState, d: string, lines: seq<string>, p: string, tail: string) {
    Block(check, lines) && Clean(p) && (tail == "" || tail == [CR]) && d == Wire(lines) + p + tail
  }

  ghost predicate Undecided(d: string) {
    exists lines, p, tail :: UndecidedBy(InRequestLine, d, lines, p, tail)
  }

  ghost predicate Accepted(d: string) {
    exists lines, e, rest :: AcceptedBy(InRequestLine, d, lines, e, rest)
  }

  ghost predicate Rejected(d: string) {
    exists lines, p, tail :: RejectedBy(InRequestLine, d, lines, p, tail)
  }

  /** The parser's verdict on every byte stream. */
  lemma Language(d: string)
    ensures Parse(d, START).code == GetRequest <==> Accepted(d)
    ensures Parse(d, START).code == BadRequest <==> Rejected(d)
    ensures Parse(d, START).code == NoRequest <==> Undecided(d)
    ensures Parse(d, START).code == NoRequest <==> !Accepted(d) && !Rejected(d)
  {
    assert d[0..] == d;
    UndecidedIff(d);
    if Parse(d, START).code == GetRequest {
      var lines, e, rest := AcceptSound(d, START);
    }
    if Parse(d, START).code == BadRequest {
      var lines, p, tail := RejectSound(d, START);
    }
    if Accepted(d) {
      var lines, e, rest :| AcceptedBy(InRequestLine, d, lines, e, rest);
      AcceptComplete(d, START, lines, e, rest);
    }
    if Rejected(d) {
      var lines, p, tail :| RejectedBy(InRequestLine, d, lines, p, tail);
      RejectComplete(d, START, lines, p, tail);
    }
  }

  lemma UndecidedIff(d: string)
    ensures Parse(d, START).code == NoRequest <==> Undecided(d)
  {
    assert d[0..] == d;
    if Parse(d, START).code == NoRequest {
      var lines, p, tail := UndecidedSound(d, START);
    }
    if Undecided(d) {
      var lines, p, tail :| UndecidedBy(InRequestLine, d, lines, p, tail);
      UndecidedComplete(d, START, lines, p, tail);
    }
  }

  // ----- What is logged -----

  /** `line` is the header name Host in any case, blanks, and the host. */
  ghost predicate IsHostHeader(line: string, host: string) {
    exists name, blanks :: IsHostLine(line, name, blanks, host)
  }

  predicate IsHostLine(line: string, name: string, blanks: string, host: string) {
    && line == name + blanks + host
    && EqualFold(name, "Host:") && (forall i :: 0 <= i < |blanks| ==> IsBlank(blanks[i]))
    && (host != "" ==> !IsBlank(host[0]))
  }

  /** A header line logs a host exactly when it is a Host header, and then its value. */
  lemma HeaderExact(line: string, host: string)
    ensures HeaderEvents(line) == [HostIs(host)] <==> IsHostHeader(line, host)
  {
    if HeaderEvents(line) == [HostIs(host)] {
      var k := Seek(line, 5, |line|, NotBlank);
      SeekFinds(line, 5, |line|, NotBlank);
      assert IsHostLine(line, line[..5], line[5..k], host);
    }
    if IsHostHeader(line, host) {
      var name, blanks :| IsHostLine(line, name, blanks, host);
      assert line[..5] == name;
      SeekIs(line, 5, |line|, NotBlank, 5 + |blanks|);
    }
  }

  /** Any other header line is logged as unknown. */
  lemma UnknownHeaderExact(line: string)
    ensures HeaderEvents(line) == [UnknownHeader] <==> !exists host :: IsHostHeader(line, host)
  {
    if HeaderEvents(line) != [UnknownHeader] {
      var host := line[Seek(line, 5, |line|, NotBlank)..];
      HeaderExact(line, host);
      assert IsHostHeader(line, host);
    }
    if host :| IsHostHeader(line, host) {
      HeaderExact(line, host);
    }
  }

  function LineEvents(check: CheckState, text: string): seq<Event> {
    match check
    case InRequestLine => SplitRequestLine(text).events
    case InHeader => if text == "" then [] else HeaderEvents(text)
  }

  function BlockEvents(check: CheckState, lines: seq<string>): seq<Event>
    decreases |lines|
  {
    if lines == [] then [] else LineEvents(check, Text(lines[0])) + BlockEvents(InHeader, lines[1..])
  }

  /** An accepted request logs its request line and its headers, in order, and
      what follows its empty line is left as it came. */
  lemma AcceptedLog(d: string, lines: seq<string>, e: string, rest: string)
    requires AcceptedBy(InRequestLine, d, lines, e, rest)
    ensures var o := Parse(d, START);
            && o.code == GetRequest && o.state.log == BlockEvents(InRequestLine, lines)
            && o.state.check == InHeader
            && o.state.start == o.state.checked == |Wire(lines)| + |e| + 2
            && o.buffer[o.state.start..] == rest
  {
    assert d[0..] == d;
    AcceptComplete(d, START, lines, e, rest);
    assert [] + BlockEvents(InRequestLine, lines) == BlockEvents(InRequestLine, lines);
  }

  predicate EndsLine(tail: string) {
    |tail| >= 2 && tail[..2] == CRLF
  }

  /** A rejected stream logs the lines before the offence, and of a bad request
      line what the parser read of it; nothing else. The outer state is that of
      the lines before, and the scan stands at the offending character, or behind
      the bad request line. */
  lemma RejectedLog(d: string, lines: seq<string>, p: string, tail: string)
    requires RejectedBy(InRequestLine, d, lines, p, tail)
    ensures var o := Parse(d, START);
            && o.code == BadRequest
            && o.state.log == BlockEvents(InRequestLine, lines)
                              + (if EndsLine(tail) then SplitRequestLine(Text(p)).events else [])
            && o.state.check == (if lines == [] then InRequestLine else InHeader)
            && o.state.start == |Wire(lines)| + (if EndsLine(tail) then |p| + 2 else 0)
            && o.state.checked == |Wire(lines)| + |p| + (if EndsLine(tail) then 2 else 0)
            && o.buffer[o.state.start..] == if EndsLine(tail) then tail[2..] else p + tail
  {
    assert d[0..] == d;
    RejectComplete(d, START, lines, p, tail);
    assert [] + BlockEvents(InRequestLine, lines) == BlockEvents(InRequestLine, lines);
  }

  /** An undecided stream has logged its complete lines; the scan stands at its
      end, or at a CR that ends it. */
  lemma UndecidedLog(d: string, lines: seq<string>, p: string, tail: string)
    requires UndecidedBy(InRequestLine, d, lines, p, tail)
    ensures var o := Parse(d, START);
            && o.code == NoRequest && o.state.log == BlockEvents(InRequestLine, lines)
            && o.state.check == (if lines == [] then InRequestLine else InHeader)
            && o.state.start == |Wire(lines)| && o.state.checked == |Wire(lines)| + |p|
            && o.buffer[o.state.start..] == p + tail
  {
    assert d[0..] == d;
    UndecidedComplete(d, START, lines, p, tail);
    assert [] + BlockEvents(InRequestLine, lines) == BlockEvents(InRequestLine, lines);
  }

  // ----- Streams without NULs -----

  /** A valid request line, non-empty headers, an empty line, then anything. */
  ghost predicate IsPlainRequest(d: string, lines: seq<string>, rest: string) {
    && lines != [] && ValidRequestLine(lines[0])
    && (forall i :: 0 <= i < |lines| ==> Clean(lines[i]))
    && (forall i :: 1 <= i < |lines| ==> lines[i] != "")
    && d == Wire(lines) + CRLF + rest
  }

  /** Valid lines up to a point, then a piece `p` of a line and what makes it
      invalid: an LF, a CR without an LF, or the end of a bad request line. */
  ghost predicate IsPlainFailure(d: string, lines: seq<string>, p: string, tail: string) {
    && (lines != [] ==> ValidRequestLine(lines[0]))
    && (forall i :: 0 <= i < |lines| ==> Clean(lines[i]))
    && (forall i :: 1 <= i < |lines| ==> lines[i] != "")
    && Clean(p) && d == Wire(lines) + p + tail
    && (|| (|tail| >= 1 && tail[0] == LF)
        || (|tail| >= 2 && tail[0] == CR && tail[1] != LF)
        || (|tail| >= 2 && tail[..2] == CRLF && lines == [] && !ValidRequestLine(p)))
  }

  /** Without NULs in the stream a line is its own text. */
  lemma NulFreeLanguage(d: string)
    requires NUL !in d
    ensures Parse(d, START).code == GetRequest <==> exists lines, rest :: IsPlainRequest(d, lines, rest)
    ensures Parse(d, START).code == BadRequest <==> exists lines, p, tail :: IsPlainFailure(d, lines, p, tail)
    ensures Parse(d, START).code == NoRequest <==>
              && !(exists lines, rest :: IsPlainRequest(d, lines, rest))
              && !exists lines, p, tail :: IsPlainFailure(d, lines, p, tail)
  {
    Language(d);
    NulFreeAccepted(d);
    NulFreeRejected(d);
  }

  lemma NulFreeRejected(d: string)
    requires NUL !in d
    ensures Rejected(d) <==> exists lines, p, tail :: IsPlainFailure(d, lines, p, tail)
  {
    if Rejected(d) {
      var lines, p, tail :| RejectedBy(InRequestLine, d, lines, p, tail);
      RejectedIffPlain(d, lines, p, tail);
    }
    if exists lines, p, tail :: IsPlainFailure(d, lines, p, tail) {
      var lines, p, tail :| IsPlainFailure(d, lines, p, tail);
      RejectedIffPlain(d, lines, p, tail);
    }
  }

  lemma RejectedIffPlain(d: string, lines: seq<string>, p: string, tail: string)
    requires NUL !in d
    ensures RejectedBy(InRequestLine, d, lines, p, tail) <==> IsPlainFailure(d, lines, p, tail)
  {
    if d == Wire(lines) + p + tail {
      InWire(lines, p + tail, d) by {
        Regroup(Wire(lines), p, tail);
      }
      assert NUL !in p by {
        assert p == (p + tail)[..|p|];
      }
      TextOfNulFree(p);
      BlockIsPlain(InRequestLine, lines);
    }
  }

  lemma NulFreeAccepted(d: string)
    requires NUL !in d
    ensures Accepted(d) <==> exists lines, rest :: IsPlainRequest(d, lines, rest)
  {
    if Accepted(d) {
      var lines, e, rest :| AcceptedBy(InRequestLine, d, lines, e, rest);
      AcceptedIsPlain(d, lines, e, rest);
    }
    if exists lines, rest :: IsPlainRequest(d, lines, rest) {
      var lines, rest :| IsPlainRequest(d, lines, rest);
      PlainIsAccepted(d, lines, rest);
    }
  }

  lemma AcceptedIsPlain(d: string, lines: seq<string>, e: string, rest: string)
    requires NUL !in d && AcceptedBy(InRequestLine, d, lines, e, rest)
    ensures IsPlainRequest(d, lines, rest)
  {
    InWire(lines, e + (CRLF + rest), d) by {
      assert Wire(lines) + e + CRLF + rest == Wire(lines) + (e + (CRLF + rest));
    }
    assert NUL !in e by {
      assert e == (e + (CRLF + rest))[..|e|];
    }
    TextOfNulFree(e);
    assert Wire(lines) + "" == Wire(lines);
    BlockIsPlain(InRequestLine, lines);
  }

  lemma PlainIsAccepted(d: string, lines: seq<string>, rest: string)
    requires NUL !in d && IsPlainRequest(d, lines, rest)
    ensures AcceptedBy(InRequestLine, d, lines, "", rest)
  {
    assert Block(InRequestLine, lines) by {
      InWire(lines, CRLF + rest, d) by {
        Regroup(Wire(lines), CRLF, rest);
      }
      BlockIsPlain(InRequestLine, lines);
    }
    TextOfNulFree("");
    assert Wire(lines) + "" == Wire(lines);
  }

  lemma TextOfNulFree(line: string)
    requires NUL !in line
    ensures Text(line) == line
  {
    SeekIs(line, 0, |line|, IsNul, |line|);
  }

  lemma {:induction false} InWire(lines: seq<string>, tail: string, d: string)
    requires d == Wire(lines) + tail && NUL !in d
    ensures NUL !in tail && forall i :: 0 <= i < |lines| ==> NUL !in lines[i]
    decreases |lines|
  {
    assert d[|Wire(lines)|..] == tail;
    if lines != [] {
      assert d == lines[0] + (CRLF + (Wire(lines[1..]) + tail));
      assert d[..|lines[0]|] == lines[0];
      InWire(lines[1..], tail, d[|lines[0]| + 2..]);
    }
  }

  lemma {:induction false} BlockIsPlain(check: CheckState, lines: seq<string>)
    requires forall i :: 0 <= i < |lines| ==> NUL !in lines[i]
    ensures Block(check, lines) <==>
            && (forall i :: 0 <= i < |lines| ==> Clean(lines[i]))
            && (forall i :: 0 <= i < |lines| ==>
                  if i == 0 && check == InRequestLine then ValidRequestLine(lines[i]) else lines[i] != "")
    decreases |lines|
  {
    if lines != [] {
      TextOfNulFree(lines[0]);
      BlockIsPlain(InHeader, lines[1..]);
      assert forall i :: 1 <= i < |lines| ==> lines[i] == lines[1..][i - 1];
      assert lines == [lines[0]] + lines[1..];
    }
  }

  // ----- One line at a time -----

  /** The parser has consumed everything before `d`. */
  ghost predicate At(b: string, s: State, d: string) {
    CursorOk(b, s) && s.start == s.checked && b[s.start..] == d
  }

  lemma ScansTo(b: string, s: State, p: string, tail: string)
    requires At(b, s, p + tail) && Clean(p)
    requires tail != "" ==> IsEol(tail[0])
    ensures Eol(b, s.checked) == s.start + |p|
    ensures tail != "" ==> b[s.start + |p|] == tail[0]
    ensures |tail| > 1 ==> b[s.start + |p| + 1] == tail[1]
    ensures s.start + |p| + |tail| == |b|
  {
    var d := b[s.start..];
    assert forall j :: s.start <= j < |b| ==> b[j] == d[j - s.start];
    SeekIs(b, s.checked, |b|, IsEol, s.start + |p|);
  }

  /** A complete line is taken off the front, as its text. */
  lemma TakesLine(b: string, s: State, p: string, tail: string)
    requires At(b, s, p + (CRLF + tail)) && Clean(p)
    ensures var n := NextLine(b, s.checked);
            && n.status == LineOk && n.checked == s.start + |p| + 2
            && CStr(n.buffer, s.start) == Text(p)
            && n.buffer[n.checked..] == tail
  {
    ScansTo(b, s, p, CRLF + tail);
    var n := NextLine(b, s.checked);
    var k := s.start + |p|;
    assert n.buffer == b[k := NUL][k + 1 := NUL];
    assert n.buffer[n.checked..] == b[s.start..][|p| + 2..] == tail;
    TextIs(b, n.buffer, s.start, p);
  }

  lemma TextIs(b: string, b': string, i: nat, p: string)
    requires i + |p| < |b'| == |b|
    requires b[i..i + |p|] == p && b'[..i + |p|] == b[..i + |p|] && b'[i + |p|] == NUL
    ensures CStr(b', i) == Text(p)
  {
    var k := StrEnd(p, 0);
    SeekFinds(p, 0, |p|, IsNul);
    assert forall j :: i <= j < i + |p| ==> b'[j] == b'[..i + |p|][j] == b[j] == b[i..i + |p|][j - i];
    SeekIs(b', i, |b'|, IsNul, i + k);
  }

  /** The next turn of the loop on a complete line. */
  lemma TurnOnLine(b: string, s: State, p: string, tail: string)
    requires At(b, s, p + (CRLF + tail)) && Clean(p)
    ensures var t := ParseOneLine(b, s);
            && At(t.buffer, t.state, tail)
            && t.verdict == (match s.check
                             case InRequestLine => if ValidRequestLine(Text(p)) then None else Some(BadRequest)
                             case InHeader => if Text(p) == "" then Some(GetRequest) else None)
            && t.state.check == (if t.verdict == None then InHeader else s.check)
            && t.state.log == s.log + LineEvents(s.check, Text(p))
  {
    TakesLine(b, s, p, tail);
    TurnKeepsCursor(b, s);
    ClosedLineStaysInside(b, s, NextLine(b, s.checked));
    CutKeepsTail(b, s);
    ValidIffPath(Text(p));
  }

  lemma CutKeepsTail(b: string, s: State)
    requires CursorOk(b, s) && NextLine(b, s.checked).status == LineOk
    ensures var t := ParseOneLine(b, s);
            var n := NextLine(b, s.checked);
            && t.state.start == t.state.checked == n.checked
            && t.buffer[n.checked..] == n.buffer[n.checked..]
  {
    var n := NextLine(b, s.checked);
    LineEnds(b, s.checked, s.start);
    LineCloses(b, s);
    CutStaysInside(n.buffer, s.start, CStr(n.buffer, s.start), n.checked);
  }

  lemma ValidIffPath(l: string)
    ensures ValidRequestLine(l) <==> SplitRequestLine(l).path.Some?
  {
    if SplitRequestLine(l).path.Some? {
      SplitExact(l, SplitRequestLine(l).path.value);
    }
    if ValidRequestLine(l) {
      var path :| IsRequestLine(l, path);
      SplitExact(l, path);
    }
  }

  /** A request line that arrives first is split so that the path it asks for is
      logged, and the scan goes on behind it in the header state. */
  lemma PathIsLogged(line: string, path: string, tail: string)
    requires Clean(line) && NUL !in line && IsRequestLine(line, path)
    ensures var t := ParseOneLine(line + (CRLF + tail), START);
            && t.verdict == None && t.state.check == InHeader
            && t.state.log == [MethodIsGet, UrlIs(path)]
            && At(t.buffer, t.state, tail)
  {
    var d := line + (CRLF + tail);
    assert d[0..] == d;
    TurnOnLine(d, START, line, tail);
    TakesLine(d, START, line, tail);
    TextOfNulFree(line);
    SplitExact(line, path);
    assert [] + [MethodIsGet, UrlIs(path)] == [MethodIsGet, UrlIs(path)];
  }

  /** A call only adds to the log, and never goes back to the request line. */
  lemma {:induction false} LogGrows(b: string, s: State)
    requires s.start <= s.checked <= |b|
    ensures s.log <= Parse(b, s).state.log
    ensures s.check == InHeader ==> Parse(b, s).state.check == InHeader
    decreases |b| - s.checked
  {
    var t := ParseOneLine(b, s);
    TurnLogs(b, s);
    if t.verdict == None {
      LogGrows(t.buffer, t.state);
    }
  }

  lemma TurnLogs(b: string, s: State)
    requires s.start <= s.checked <= |b|
    ensures s.log <= ParseOneLine(b, s).state.log
    ensures s.check == InHeader ==> ParseOneLine(b, s).state.check == InHeader
  {}

  /** So a printed request is recovered from the byte stream, wherever it is
      cut and whatever follows it. */
  lemma StreamRoundTrip(path: string, host: string, absolute: bool, tail: string, chunks: seq<string>)
    requires StartsWithSlash(path) && BlankFree(path) && Clean(path) && NUL !in path
    requires BlankFree(host) && '/' !in host && Clean(host) && NUL !in host
    requires Concat(chunks) == Print(path, host, absolute) + (CRLF + tail)
    ensures [MethodIsGet, UrlIs(path)] <= Feed(NOTHING, chunks).state.log
    ensures Feed(NOTHING, chunks).state.check == InHeader
    ensures var t := ParseOneLine(Concat(chunks), START);
            t.verdict == None && t.state.log == [MethodIsGet, UrlIs(path)] && At(t.buffer, t.state, tail)
  {
    FirstTurnRoundTrip(path, host, absolute, tail);
    ChunkIndependence(chunks);
    var t := ParseOneLine(Concat(chunks), START);
    assert Parse(Concat(chunks), START) == Parse(t.buffer, t.state);
    LogGrows(t.buffer, t.state);
  }

  lemma FirstTurnRoundTrip(path: string, host: string, absolute: bool, tail: string)
    requires StartsWithSlash(path) && BlankFree(path) && Clean(path) && NUL !in path
    requires BlankFree(host) && '/' !in host && Clean(host) && NUL !in host
    ensures var t := ParseOneLine(Print(path, host, absolute) + (CRLF + tail), START);
            && t.verdict == None && t.state.check == InHeader
            && t.state.log == [MethodIsGet, UrlIs(path)] && At(t.buffer, t.state, tail)
  {
    var line := Print(path, host, absolute);
    assert IsRequestLine(line, path) by {
      RoundTrip(path, host, absolute);
      SplitExact(line, path);
    }
    assert Clean(line) && NUL !in line by {
      PlainConcat(SCHEME, host);
      PlainConcat(SCHEME + host, path);
      var t := if absolute then SCHEME + host + path else path;
      PlainConcat(GET, " ");
      PlainConcat(GET + " ", t);
      PlainConcat(GET + " " + t, " ");
      PlainConcat(GET + " " + t + " ", VERSION);
    }
    PathIsLogged(line, path, tail);
  }

  lemma PlainConcat(a: string, b: string)
    requires Clean(a) && NUL !in a && Clean(b) && NUL !in b
    ensures Clean(a + b) && NUL !in a + b
  {}

  // ----- Every stream in the language gets its verdict -----

  lemma {:induction false} AcceptComplete(b: string, s: State, lines: seq<string>, e: string, rest: string)
    requires CursorOk(b, s) && s.start == s.checked
    requires AcceptedBy(s.check, b[s.start..], lines, e, rest)
    ensures var o := Parse(b, s);
            && o.code == GetRequest && At(o.buffer, o.state, rest) && o.state.check == InHeader
            && o.state.log == s.log + BlockEvents(s.check, lines)
    decreases |lines|
  {
    if lines == [] {
      assert "" + e + CRLF + rest == e + (CRLF + rest);
      TurnOnLine(b, s, e, rest);
    } else {
      var tail := Wire(lines[1..]) + e + CRLF + rest;
      assert b[s.start..] == lines[0] + (CRLF + tail);
      TurnOnLine(b, s, lines[0], tail);
      var t := ParseOneLine(b, s);
      AcceptComplete(t.buffer, t.state, lines[1..], e, rest);
      Regroup(s.log, LineEvents(s.check, Text(lines[0])), BlockEvents(InHeader, lines[1..]));
    }
  }

  /** A line the scan cannot take: unfinished, or broken by a stray CR or LF.
      The turn only moves the scan to where it stops. */
  lemma TurnStops(b: string, s: State, p: string, tail: string)
    requires At(b, s, p + tail) && Clean(p) && (tail != "" ==> IsEol(tail[0])) && !EndsLine(tail)
    ensures ParseOneLine(b, s) ==
            Turn(b, s.(checked := s.start + |p|), Some(if tail == "" || tail == [CR] then NoRequest else BadRequest))
  {
    ScansTo(b, s, p, tail);
    LateLfIsDead(b, s);
  }

  lemma {:induction false} RejectComplete(b: string, s: State, lines: seq<string>, p: string, tail: string)
    requires CursorOk(b, s) && s.start == s.checked
    requires RejectedBy(s.check, b[s.start..], lines, p, tail)
    ensures var o := Parse(b, s);
            && o.code == BadRequest
            && o.state.log == s.log + BlockEvents(s.check, lines)
                              + (if EndsLine(tail) then SplitRequestLine(Text(p)).events else [])
            && o.state.check == (if lines == [] then s.check else InHeader)
            && o.state.checked == o.state.start + (if EndsLine(tail) then 0 else |p|)
            && o.buffer[o.state.start..] == if EndsLine(tail) then tail[2..] else p + tail
    decreases |lines|
  {
    if lines == [] {
      assert b[s.start..] == p + tail;
      assert s.log + [] == s.log;
      if EndsLine(tail) {
        assert tail == CRLF + tail[2..];
        TurnOnLine(b, s, p, tail[2..]);
      } else {
        TurnStops(b, s, p, tail);
      }
    } else {
      var more := Wire(lines[1..]) + p + tail;
      assert b[s.start..] == lines[0] + (CRLF + more);
      TurnOnLine(b, s, lines[0], more);
      var t := ParseOneLine(b, s);
      RejectComplete(t.buffer, t.state, lines[1..], p, tail);
      Regroup(s.log, LineEvents(s.check, Text(lines[0])), BlockEvents(InHeader, lines[1..]));
    }
  }

  lemma {:induction false} UndecidedComplete(b: string, s: State, lines: seq<string>, p: string, tail: string)
    requires CursorOk(b, s) && s.start == s.checked
    requires UndecidedBy(s.check, b[s.start..], lines, p, tail)
    ensures var o := Parse(b, s);
            && o.code == NoRequest
            && o.state.log == s.log + BlockEvents(s.check, lines)
            && o.state.check == (if lines == [] then s.check else InHeader)
            && o.state.checked == o.state.start + |p|
            && o.buffer[o.state.start..] == p + tail
    decreases |lines|
  {
    if lines == [] {
      assert b[s.start..] == p + tail;
      assert s.log + [] == s.log;
      TurnStops(b, s, p, tail);
    } else {
      var more := Wire(lines[1..]) + p + tail;
      assert b[s.start..] == lines[0] + (CRLF + more);
      TurnOnLine(b, s, lines[0], more);
      var t := ParseOneLine(b, s);
      UndecidedComplete(t.buffer, t.state, lines[1..], p, tail);
      Regroup(s.log, LineEvents(s.check, Text(lines[0])), BlockEvents(InHeader, lines[1..]));
    }
  }

  // ----- Every verdict is given to a stream in the language -----

  /** What the parser has in front of it, cut where the scan stops. */
  lemma CutsAtEol(b: string, s: State) returns (p: string, tail: string)
    requires CursorOk(b, s) && s.start == s.checked
    ensures At(b, s, p + tail) && Clean(p) && (tail != "" ==> IsEol(tail[0]))
    ensures var n := NextLine(b, s.checked);
            && (n.status == LineOk ==> |tail| >= 2 && tail[..2] == CRLF)
            && (n.status == LineBad ==>
                 (|tail| >= 1 && tail[0] == LF) || (|tail| >= 2 && tail[0] == CR && tail[1] != LF))
  {
    var k := Eol(b, s.checked);
    p, tail := b[s.start..k], b[k..];
    assert Clean(p) && (tail != "" ==> IsEol(tail[0])) by {
      SeekFinds(b, s.checked, |b|, IsEol);
    }
    assert b[s.start..] == p + tail;
    LateLfIsDead(b, s);
    StrictStatus(b, s.checked, tail);
  }

  lemma StrictStatus(b: string, c: nat, tail: string)
    requires c <= |b| && tail == b[Eol(b, c)..] && (tail != "" ==> IsEol(tail[0]))
    ensures var n := StrictLine(b, c);
            && (n.status == LineOk ==> |tail| >= 2 && tail[..2] == CRLF)
            && (n.status == LineBad ==>
                 (|tail| >= 1 && tail[0] == LF) || (|tail| >= 2 && tail[0] == CR && tail[1] != LF))
  {
    assert tail != "" ==> tail[0] == b[Eol(b, c)];
    assert |tail| > 1 ==> tail[1] == b[Eol(b, c) + 1];
  }

  lemma PrependAccepted(check: CheckState, line: string, d: string, lines: seq<string>, e: string, rest: string)
    requires GoodLine(check, line) && AcceptedBy(InHeader, d, lines, e, rest)
    ensures AcceptedBy(check, line + (CRLF + d), [line] + lines, e, rest)
  {
    assert ([line] + lines)[1..] == lines;
    assert line + (CRLF + (Wire(lines) + e + CRLF + rest)) == line + CRLF + Wire(lines) + e + CRLF + rest;
  }

  lemma PrependRejected(check: CheckState, line: string, d: string, lines: seq<string>, p: string, tail: string)
    requires GoodLine(check, line) && RejectedBy(InHeader, d, lines, p, tail)
    ensures RejectedBy(check, line + (CRLF + d), [line] + lines, p, tail)
  {
    assert ([line] + lines)[1..] == lines;
    assert line + (CRLF + (Wire(lines) + p + tail)) == line + CRLF + Wire(lines) + p + tail;
  }

  lemma LastAccepted(check: CheckState, e: string, rest: string)
    requires check == InHeader && Clean(e) && Text(e) == ""
    ensures AcceptedBy(check, e + (CRLF + rest), [], e, rest)
  {
    assert e + (CRLF + rest) == "" + e + CRLF + rest;
  }

  lemma LastRejected(check: CheckState, p: string, tail: string)
    requires Clean(p)
    requires || (|tail| >= 1 && tail[0] == LF)
             || (|tail| >= 2 && tail[0] == CR && tail[1] != LF)
             || (|tail| >= 2 && tail[..2] == CRLF && check == InRequestLine && !ValidRequestLine(Text(p)))
    ensures RejectedBy(check, p + tail, [], p, tail)
  {
    assert p + tail == "" + p + tail;
  }

  lemma {:induction false} AcceptSound(b: string, s: State)
    returns (lines: seq<string>, e: string, rest: string)
    requires CursorOk(b, s) && s.start == s.checked && Parse(b, s).code == GetRequest
    ensures AcceptedBy(s.check, b[s.start..], lines, e, rest)
    decreases |b| - s.checked
  {
    var p, tail := CutsAtEol(b, s);
    var more := tail[2..];
    assert tail == CRLF + more;
    TurnOnLine(b, s, p, more);
    var t := ParseOneLine(b, s);
    if t.verdict == None {
      lines, e, rest := AcceptSound(t.buffer, t.state);
      PrependAccepted(s.check, p, more, lines, e, rest);
      lines := [p] + lines;
    } else {
      lines, e, rest := [], p, more;
      LastAccepted(s.check, p, more);
    }
  }

  lemma {:induction false} RejectSound(b: string, s: State)
    returns (lines: seq<string>, p: string, tail: string)
    requires CursorOk(b, s) && s.start == s.checked && Parse(b, s).code == BadRequest
    ensures RejectedBy(s.check, b[s.start..], lines, p, tail)
    decreases |b| - s.checked
  {
    p, tail := CutsAtEol(b, s);
    lines := [];
    if NextLine(b, s.checked).status == LineOk {
      var line, more := p, tail[2..];
      assert tail == CRLF + more;
      TurnOnLine(b, s, line, more);
      var t := ParseOneLine(b, s);
      if t.verdict == None {
        lines, p, tail := RejectSound(t.buffer, t.state);
        PrependRejected(s.check, line, more, lines, p, tail);
        lines := [line] + lines;
        return;
      }
    }
    LastRejected(s.check, p, tail);
  }

  lemma PrependUndecided(check: CheckState, line: string, d: string, lines: seq<string>, p: string, tail: string)
    requires GoodLine(check, line) && UndecidedBy(InHeader, d, lines, p, tail)
    ensures UndecidedBy(check, line + (CRLF + d), [line] + lines, p, tail)
  {
    assert ([line] + lines)[1..] == lines;
    assert line + (CRLF + (Wire(lines) + p + tail)) == line + CRLF + Wire(lines) + p + tail;
  }

  lemma {:induction false} UndecidedSound(b: string, s: State)
    returns (lines: seq<string>, p: string, tail: string)
    requires CursorOk(b, s) && s.start == s.checked && Parse(b, s).code == NoRequest
    ensures UndecidedBy(s.check, b[s.start..], lines, p, tail)
    decreases |b| - s.checked
  {
    p, tail := CutsAtEol(b, s);
    lines := [];
    if EndsLine(tail) {
      var line, more := p, tail[2..];
      assert tail == CRLF + more;
      TurnOnLine(b, s, line, more);
      var t := ParseOneLine(b, s);
      lines, p, tail := UndecidedSound(t.buffer, t.state);
      PrependUndecided(s.check, line, more, lines, p, tail);
      lines := [line] + lines;
    } else {
      TurnStops(b, s, p, tail);
      assert p + tail == "" + p + tail;
    }
  }
}

/** The incremental request parser: two nested state machines over a buffer
    that is overwritten while it is read. */
module HttpParse {
  import opened CStrings
  import opened Options
  import opened Order
  import opened RequestLine

  datatype CheckState = InRequestLine | InHeader
  datatype LineStatus = LineOk | LineBad | LineOpen
  datatype HttpCode = NoRequest | GetRequest | BadRequest

  /** What is kept between calls: the scan position, the start of the current
      line, the outer state, and everything printed so far. */
  datatype State = State(checked: nat, start: nat, check: CheckState, log: seq<Event>)

  const START: State := State(0, 0, InRequestLine, [])

  datatype Line = Line(buffer: string, checked: nat, status: LineStatus)
  datatype Outcome = Outcome(buffer: string, state: State, code: HttpCode)

  // ----- What each call computes, on the bytes below the read limit -----

  /** The first CR or LF at or after `c`, or the read limit. */
  function Eol(b: string, c: nat): (k: nat)
    requires c <= |b|
    ensures c <= k <= |b|
  {
    Seek(b, c, |b|, IsEol)
  }

  function NextLine(b: string, c: nat): (r: Line)
    requires c <= |b|
    ensures |r.buffer| == |b| && c <= r.checked <= |b|
    ensures r.status == LineOk ==> c < r.checked
  {
    var k := Eol(b, c);
    if k == |b| then Line(b, k, LineOpen)
    else if b[k] == CR then
      if k + 1 == |b| then Line(b, k, LineOpen)
      else if b[k + 1] == LF then Line(b[k := NUL][k + 1 := NUL], k + 2, LineOk)
      else Line(b, k, LineBad)
    else if k > 1 && b[k - 1] == CR then Line(b[k - 1 := NUL][k := NUL], k + 1, LineOk)
    else Line(b, k, LineBad)
  }

  /** What the scan from `c` does when it first meets an end-of-line character, or
      the read limit, at `k`. */
  lemma NextLineExact(b: string, c: nat, k: nat)
    requires c <= k <= |b| && forall j :: c <= j < k ==> b[j] != '\r' && b[j] != '\n'
    requires k < |b| ==> b[k] == '\r' || b[k] == '\n'
    ensures NextLine(b, c) ==
            if k == |b| || (b[k] == '\r' && k + 1 == |b|) then Line(b, k, LineOpen)
            else if b[k] == '\r' && b[k + 1] == '\n' then
              Line(b[..k] + ['\0', '\0'] + b[k + 2..], k + 2, LineOk)
            else if b[k] == '\n' && k > 1 && b[k - 1] == '\r' then
              Line(b[..k - 1] + ['\0', '\0'] + b[k + 1..], k + 1, LineOk)
            else Line(b, k, LineBad)
  {
    SeekIs(b, c, |b|, IsEol, k);
    if k + 1 < |b| {
      assert b[k := '\0'][k + 1 := '\0'] == b[..k] + ['\0', '\0'] + b[k + 2..];
    }
    if 0 < k < |b| {
      assert b[k - 1 := '\0'][k := '\0'] == b[..k - 1] + ['\0', '\0'] + b[k + 1..];
    }
  }

  /** The C string at `t + i` in `b` is `l[i..]`, the rest of a line that
      starts at `t`. */
  predicate Rest(b: string, t: nat, l: string, i: nat) {
    i <= |l| && t + |l| < |b| && CStr(b, t + i) == l[i..]
  }

  /** A completed line is a C string that ends before the scan position. */
  lemma LineEnds(b: string, c: nat, start: nat)
    requires start <= c <= |b| && NextLine(b, c).status == LineOk
    ensures var n := NextLine(b, c);
            var line := CStr(n.buffer, start);
            start + |line| < n.checked && Rest(n.buffer, start, line, 0)
  {
    var n := NextLine(b, c);
    SeekFinds(n.buffer, start, |b|, IsNul);
    assert n.buffer[n.checked - 1] == NUL;
  }

  function HeaderEvents(line: string): seq<Event> {
    if StartsFold(line, "Host:") then
      [HostIs(line[Seek(line, 5, |line|, NotBlank)..])]
    else [UnknownHeader]
  }

  ghost predicate WellPlaced(b: string, s: State) {
    s.start <= s.checked <= |b|
  }

  /** One turn of the loop: a verdict, or another line consumed. */
  datatype Turn = Turn(buffer: string, state: State, verdict: Option<HttpCode>)

  function ParseOneLine(b: string, s: State): (r: Turn)
    requires s.start <= s.checked <= |b|
    ensures |r.buffer| == |b| && WellPlaced(r.buffer, r.state)
    ensures r.verdict == None ==> s.checked < r.state.checked
  {
    var n := NextLine(b, s.checked);
    match n.status
    case LineOpen => Turn(b, s.(checked := n.checked), Some(NoRequest))
    case LineBad => Turn(b, s.(checked := n.checked), Some(BadRequest))
    case LineOk =>
      LineEnds(b, s.checked, s.start);
      var line := CStr(n.buffer, s.start);
      var s' := s.(checked := n.checked, start := n.checked);
      match s.check
      case InRequestLine =>
        var q := SplitRequestLine(line);
        var b' := CutLine(n.buffer, s.start, line);
        if q.path == None then Turn(b', s'.(log := s.log + q.events), Some(BadRequest))
        else Turn(b', s'.(check := InHeader, log := s.log + q.events), None)
      case InHeader =>
        if line == "" then Turn(n.buffer, s', Some(GetRequest))
        else Turn(n.buffer, s'.(log := s.log + HeaderEvents(line)), None)
  }

  function Parse(b: string, s: State): (r: Outcome)
    requires s.start <= s.checked <= |b|
    ensures |r.buffer| == |b| && WellPlaced(r.buffer, r.state)
    decreases |b| - s.checked
  {
    var t := ParseOneLine(b, s);
    match t.verdict
    case Some(code) => Outcome(t.buffer, t.state, code)
    case None => Parse(t.buffer, t.state)
  }

  // ----- The code -----

  method ParseLine(buffer: array<char>, checkedIndex: nat, readIndex: nat)
    returns (status: LineStatus, checked: nat)
    requires checkedIndex <= readIndex <= buffer.Length
    modifies buffer
    ensures Line(buffer[..readIndex], checked, status) == NextLine(old(buffer[..readIndex]), checkedIndex)
    ensures buffer[readIndex..] == old(buffer[readIndex..])
  {
    ghost var b := buffer[..readIndex];
    checked := checkedIndex;
    while checked < readIndex
      invariant checkedIndex <= checked <= readIndex
      invariant buffer[..] == old(buffer[..])
      invariant Eol(b, checkedIndex) == Eol(b, checked)
    {
      var temp := buffer[checked];
      if temp == CR {
        if checked + 1 == readIndex {
          return LineOpen, checked;
        } else if buffer[checked + 1] == LF {
          buffer[checked] := NUL;
          checked := checked + 1;
          buffer[checked] := NUL;
          checked := checked + 1;
          return LineOk, checked;
        }
        return LineBad, checked;
      } else if temp == LF {
        if checked > 1 && buffer[checked - 1] == CR {
          buffer[checked - 1] := NUL;
          buffer[checked] := NUL;
          checked := checked + 1;
          return LineOk, checked;
        }
        return LineBad, checked;
      }
      checked := checked + 1;
    }
    return LineOpen, checked;
  }

  // `strpbrk`, `strspn` and `strchr`: a position inside the C string, or its end.

  function StrPBrk(b: string, i: nat): (k: nat)
    requires i <= |b|
    ensures i <= k <= StrEnd(b, i)
  {
    Seek(b, i, StrEnd(b, i), IsBlank)
  }

  function StrSkipBlanks(b: string, i: nat): (k: nat)
    requires i <= |b|
    ensures i <= k <= StrEnd(b, i)
  {
    Seek(b, i, StrEnd(b, i), NotBlank)
  }

  function StrChrSlash(b: string, i: nat): (k: nat)
    requires i <= |b|
    ensures i <= k <= StrEnd(b, i)
  {
    Seek(b, i, StrEnd(b, i), IsSlash)
  }

  lemma RestReads(b: string, t: nat, l: string, i: nat)
    requires Rest(b, t, l, i)
    ensures CStr(b, t + i) == l[i..]
  {}

  lemma RestFacts(b: string, t: nat, l: string, i: nat)
    requires Rest(b, t, l, i)
    ensures StrEnd(b, t + i) == t + |l| && b[t + |l|] == NUL
    ensures forall j :: i <= j < |l| ==> l[j] != NUL && b[t + j] == l[j]
  {
    var e := StrEnd(b, t + i);
    SeekFinds(b, t + i, |b|, IsNul);
    assert |b[t + i..e]| == |l[i..]|;
    forall j | i <= j < |l|
      ensures l[j] != NUL && b[t + j] == l[j]
    {
      assert l[j] == l[i..][j - i] == b[t + i..e][j - i] == b[t + j];
      assert !IsNul(b[t + j]);
    }
  }

  /** Seeking in the rest of a line. */
  lemma RestSeek(b: string, t: nat, l: string, i: nat, p: char -> bool)
    requires Rest(b, t, l, i)
    ensures StrEnd(b, t + i) == t + |l|
    ensures Seek(b, t + i, t + |l|, p) == t + Seek(l, i, |l|, p)
  {
    RestFacts(b, t, l, i);
    SeekShift(b, t, l, i, p);
  }

  lemma RestOfRest(b: string, t: nat, l: string, i: nat, k: nat)
    requires Rest(b, t, l, i) && i <= k <= |l|
    ensures Rest(b, t, l, k)
  {
    RestFacts(b, t, l, i);
    CStrIs(b, t + k, l[k..]);
  }

  /** Writing a NUL at `t + k` ends there the C string that starts at `t + i`,
      and leaves what follows as another one. */
  lemma RestCut(b: string, t: nat, l: string, i: nat, k: nat)
    requires Rest(b, t, l, i) && i <= k < |l|
    ensures CStr(b[t + k := NUL], t + i) == l[i..k]
    ensures Rest(b[t + k := NUL], t, l, k + 1)
  {
    RestFacts(b, t, l, i);
    CStrIs(b[t + k := NUL], t + i, l[i..k]);
    CStrIs(b[t + k := NUL], t + k + 1, l[k + 1..]);
  }

  /** `strpbrk(p, " \t")`; the C string at `p` is `l[i..]`. */
  method FindBlank(buffer: array<char>, p: nat, ghost t: nat, ghost l: string, ghost i: nat)
    returns (found: bool, at: nat)
    requires p == t + i && Rest(buffer[..], t, l, i)
    ensures at == t + Seek(l, i, |l|, IsBlank) && found == (Seek(l, i, |l|, IsBlank) < |l|)
  {
    RestSeek(buffer[..], t, l, i, IsBlank);
    at := StrPBrk(buffer[..], p);
    found := at != StrEnd(buffer[..], p);
  }

  /** `*next++ = 0` at `t + k` and `next += strspn(next, " \t")`. */
  method CutThere(buffer: array<char>, at: nat, ghost t: nat, ghost l: string, ghost i: nat, ghost k: nat)
    returns (next: nat)
    requires Rest(buffer[..], t, l, i) && i <= k < |l| && at == t + k
    modifies buffer
    ensures var n := Seek(l, k + 1, |l|, NotBlank);
            && buffer[..] == old(buffer[..])[t + k := NUL]
            && next == t + n
            && CStr(buffer[..], t + i) == l[i..k]
            && Rest(buffer[..], t, l, n)
  {
    ghost var b := buffer[..];
    CutFacts(b, t, l, i, k);
    buffer[at] := NUL;
    assert buffer[..] == b[t + k := NUL];
    next := StrSkipBlanks(buffer[..], at + 1);
  }

  /** Both, as the parser does for the method and for the target. */
  method CutAtBlank(buffer: array<char>, p: nat, ghost t: nat, ghost l: string, ghost i: nat)
    returns (found: bool, next: nat, ghost k: nat, ghost n: nat)
    requires p == t + i && Rest(buffer[..], t, l, i)
    modifies buffer
    ensures k == Seek(l, i, |l|, IsBlank) && found == (k < |l|)
    ensures !found ==> buffer[..] == old(buffer[..])
    ensures found ==>
              && i <= k && n == Seek(l, k + 1, |l|, NotBlank) && next == t + n
              && buffer[..] == old(buffer[..])[t + k := NUL]
              && CStr(buffer[..], t + i) == l[i..k]
              && Rest(buffer[..], t, l, n)
  {
    k, n := Seek(l, i, |l|, IsBlank), 0;
    found, next := FindBlank(buffer, p, t, l, i);
    if found {
      n := Seek(l, k + 1, |l|, NotBlank);
      next := CutThere(buffer, next, t, l, i, k);
    }
  }

  lemma CutFacts(b: string, t: nat, l: string, i: nat, k: nat)
    requires Rest(b, t, l, i) && i <= k < |l|
    ensures var b' := b[t + k := NUL];
            var n := Seek(l, k + 1, |l|, NotBlank);
            StrSkipBlanks(b', t + k + 1) == t + n && CStr(b', t + i) == l[i..k] && Rest(b', t, l, n)
  {
    RestCut(b, t, l, i, k);
    BlanksSkipped(b[t + k := NUL], t, l, k + 1);
  }

  lemma BlanksSkipped(b: string, t: nat, l: string, i: nat)
    requires Rest(b, t, l, i)
    ensures var n := Seek(l, i, |l|, NotBlank);
            StrSkipBlanks(b, t + i) == t + n && Rest(b, t, l, n)
  {
    RestSeek(b, t, l, i, NotBlank);
    RestOfRest(b, t, l, i, Seek(l, i, |l|, NotBlank));
  }

  /** Skips an "http://" prefix and its host; the rest must start with a slash.
      `t` is the C string at `url`. */
  method FindPath(buffer: array<char>, url: nat, ghost t: string) returns (path: Option<nat>)
    requires Rest(buffer[..], url, t, 0)
    ensures match TargetPath(t)
            case None => path == None
            case Some(p) => path.Some? && path.value <= buffer.Length && CStr(buffer[..], path.value) == p
  {
    assert t[0..] == t;
    if StartsFold(CStr(buffer[..], url), SCHEME) {
      RestOfRest(buffer[..], url, t, 0, |SCHEME|);
      RestSeek(buffer[..], url, t, |SCHEME|, IsSlash);
      var k := StrChrSlash(buffer[..], url + |SCHEME|);
      if k == StrEnd(buffer[..], url + |SCHEME|) {
        return None;
      }
      RestOfRest(buffer[..], url, t, 0, k - url);
      return Some(k);
    }
    return if StartsWithSlash(CStr(buffer[..], url)) then Some(url) else None;
  }

  /** The part of the parser that cuts off the method. */
  method ParseMethod(buffer: array<char>, temp: nat, ghost l: string) returns (found: bool, isGet: bool, url: nat)
    requires Rest(buffer[..], temp, l, 0)
    modifies buffer
    ensures found == (MethodEnd(l) < |l|)
    ensures !found ==> buffer[..] == old(buffer[..])
    ensures found ==>
              && buffer[..] == old(buffer[..])[temp + MethodEnd(l) := NUL]
              && isGet == IsGet(l) && url == temp + TargetStart(l)
              && Rest(buffer[..], temp, l, TargetStart(l))
  {
    ghost var k, n;
    found, url, k, n := CutAtBlank(buffer, temp, temp, l, 0);
    assert k == MethodEnd(l);
    isGet := false;
    if found {
      assert n == TargetStart(l) && l[0..k] == l[..k];
      isGet := EqualFold(CStr(buffer[..], temp), GET);
    }
  }

  /** The part of the parser after the method: version, then target. */
  method ParseTarget(buffer: array<char>, url: nat, ghost temp: nat, ghost l: string)
    returns (path: Option<string>)
    requires MethodEnd(l) < |l| && url == temp + TargetStart(l)
    requires Rest(buffer[..], temp, l, TargetStart(l))
    modifies buffer
    ensures path == PathOf(l)
    ensures buffer[..] == if TargetEnd(l) == |l| then old(buffer[..]) else old(buffer[..])[temp + TargetEnd(l) := NUL]
  {
    var found, version := CutTarget(buffer, url, temp, l);
    if !found || !EqualFold(CStr(buffer[..], version), VERSION) {
      return None;
    }
    var offset := FindPath(buffer, url, l[TargetStart(l)..TargetEnd(l)]);
    return if offset.Some? then Some(CStr(buffer[..], offset.value)) else None;
  }

  /** Cuts off the target: afterwards it and the version are C strings. */
  method CutTarget(buffer: array<char>, url: nat, ghost temp: nat, ghost l: string)
    returns (found: bool, version: nat)
    requires MethodEnd(l) < |l| && url == temp + TargetStart(l)
    requires Rest(buffer[..], temp, l, TargetStart(l))
    modifies buffer
    ensures found == (TargetEnd(l) < |l|)
    ensures !found ==> buffer[..] == old(buffer[..])
    ensures found ==>
              && buffer[..] == old(buffer[..])[temp + TargetEnd(l) := NUL]
              && version <= buffer.Length && CStr(buffer[..], version) == l[VersionStart(l)..]
              && Rest(buffer[..], url, l[TargetStart(l)..TargetEnd(l)], 0)
  {
    ghost var k, n;
    found, version, k, n := CutAtBlank(buffer, url, temp, l, TargetStart(l));
    assert k == TargetEnd(l);
    if found {
      ghost var t := l[TargetStart(l)..k];
      RestReads(buffer[..], temp, l, n);
      assert n == VersionStart(l);
      assert t[0..] == t;
    }
  }

  /** `l` is the C string that starts at `temp`. */
  method ParseRequestLine(buffer: array<char>, temp: nat, checkState: CheckState, log: seq<Event>, ghost l: string)
    returns (code: HttpCode, checkState': CheckState, log': seq<Event>)
    requires Rest(buffer[..], temp, l, 0)
    modifies buffer
    ensures var q := SplitRequestLine(l);
            && buffer[..] == CutLine(old(buffer[..]), temp, l)
            && log' == log + q.events
            && code == (if q.path.Some? then NoRequest else BadRequest)
            && checkState' == (if q.path.Some? then InHeader else checkState)
  {
    checkState', log' := checkState, log;
    var found, isGet, url := ParseMethod(buffer, temp, l);
    if !found {
      return BadRequest, checkState', log';
    }
    if isGet {
      log' := log' + [MethodIsGet];
    } else {
      return BadRequest, checkState', log';
    }
    var path := ParseTarget(buffer, url, temp, l);
    if path == None {
      return BadRequest, checkState', log';
    }
    log' := log' + [UrlIs(path.value)];
    checkState' := InHeader;
    return NoRequest, checkState', log';
  }

  /** `line` is the C string that starts at `temp`. */
  method ParseHeaders(buffer: array<char>, temp: nat, log: seq<Event>, ghost line: string)
    returns (code: HttpCode, log': seq<Event>)
    requires Rest(buffer[..], temp, line, 0)
    ensures code == if line == "" then GetRequest else NoRequest
    ensures log' == log + if line == "" then [] else HeaderEvents(line)
  {
    log' := log;
    assert line[0..] == line;
    RestFacts(buffer[..], temp, line, 0);
    if buffer[temp] == NUL {
      return GetRequest, log';
    } else if StartsFold(CStr(buffer[..], temp), "Host:") {
      RestOfRest(buffer[..], temp, line, 0, 5);
      RestSeek(buffer[..], temp, line, 5, NotBlank);
      var host := StrSkipBlanks(buffer[..], temp + 5);
      ghost var k := Seek(line, 5, |line|, NotBlank);
      assert host == temp + k;
      RestOfRest(buffer[..], temp, line, 0, k);
      log' := log' + [HostIs(CStr(buffer[..], host))];
      assert log' == log + HeaderEvents(line);
    } else {
      log' := log' + [UnknownHeader];
    }
    return NoRequest, log';
  }

  lemma RestExtends(b: string, x: string, t: nat, l: string)
    requires Rest(b, t, l, 0)
    ensures Rest(b + x, t, l, 0) && CStr(b + x, t) == l
  {
    RestFacts(b, t, l, 0);
    CStrIs(b + x, t, l);
  }

  lemma CutExtends(b: string, x: string, t: nat, l: string)
    requires t + |l| <= |b|
    ensures CutLine(b + x, t, l) == CutLine(b, t, l) + x
  {}

  /** The switch on the outer state, for the line that starts at `temp`. */
  method HandleLine(buffer: array<char>, temp: nat, readIndex: nat, check: CheckState, log: seq<Event>,
                    ghost line: string)
    returns (code: HttpCode, check': CheckState, log': seq<Event>)
    requires readIndex <= buffer.Length && Rest(buffer[..readIndex], temp, line, 0)
    modifies buffer
    ensures buffer[readIndex..] == old(buffer[readIndex..])
    ensures var b := old(buffer[..readIndex]);
            var q := SplitRequestLine(line);
            match check
            case InRequestLine =>
              && buffer[..readIndex] == CutLine(b, temp, line)
              && log' == log + q.events
              && code == (if q.path.Some? then NoRequest else BadRequest)
              && check' == (if q.path.Some? then InHeader else check)
            case InHeader =>
              && buffer[..readIndex] == b && check' == check
              && code == (if line == "" then GetRequest else NoRequest)
              && log' == log + (if line == "" then [] else HeaderEvents(line))
  {
    ghost var b, beyond := buffer[..readIndex], buffer[readIndex..];
    assert buffer[..] == b + beyond;
    RestExtends(b, beyond, temp, line);
    check' := check;
    match check {
      case InRequestLine =>
        CutExtends(b, beyond, temp, line);
        code, check', log' := ParseRequestLine(buffer, temp, check, log, line);
        SameSplit(buffer[..], CutLine(b, temp, line), beyond, readIndex);
      case InHeader =>
        code, log' := ParseHeaders(buffer, temp, log, line);
    }
  }

  method ParseContent(buffer: array<char>, checkedIndex: nat, checkState: CheckState, readIndex: nat,
                      startLine: nat, log: seq<Event>)
    returns (code: HttpCode, checked: nat, check: CheckState, start: nat, log': seq<Event>)
    requires startLine <= checkedIndex <= readIndex <= buffer.Length
    modifies buffer
    ensures Outcome(buffer[..readIndex], State(checked, start, check, log'), code)
         == Parse(old(buffer[..readIndex]), State(checkedIndex, startLine, checkState, log))
    ensures buffer[readIndex..] == old(buffer[readIndex..])
  {
    checked, start, check, log' := checkedIndex, startLine, checkState, log;
    ghost var goal := Parse(buffer[..readIndex], State(checked, start, check, log'));
    while true
      invariant start <= checked <= readIndex
      invariant Parse(buffer[..readIndex], State(checked, start, check, log')) == goal
      invariant buffer[readIndex..] == old(buffer[readIndex..])
      decreases readIndex - checked
    {
      ghost var b := buffer[..readIndex];
      var status, next := ParseLine(buffer, checked, readIndex);
      if status == LineOpen {
        return NoRequest, next, check, start, log';
      } else if status == LineBad {
        return BadRequest, next, check, start, log';
      }
      LineEnds(b, checked, start);
      ghost var line := CStr(buffer[..readIndex], start);
      var temp := start;
      checked, start := next, next;
      code, check, log' := HandleLine(buffer, temp, readIndex, check, log', line);
      if code != NoRequest {
        return;
      }
    }
  }

  lemma SameSplit(whole: string, b: string, x: string, k: nat)
    requires whole == b + x && |b| == k
    ensures whole[..k] == b && whole[k..] == x
  {}

  // ----- Chunk independence -----

  /** Where the scan stops does not depend on bytes it has not reached. */
  lemma NextLineExtends(b: string, x: string, c: nat)
    requires c <= |b|
    ensures var n := NextLine(b, c);
            && (n.status != LineOpen ==> NextLine(b + x, c) == n.(buffer := n.buffer + x))
            && (n.status == LineOpen ==> n.buffer == b && NextLine(b + x, n.checked) == NextLine(b + x, c))
  {
    var k := Eol(b, c);
    SeekFinds(b, c, |b|, IsEol);
    SeekFinds(b + x, k, |b + x|, IsEol);
    var k' := Eol(b + x, k);
    assert forall j :: c <= j < k ==> (b + x)[j] == b[j];
    SeekIs(b + x, c, |b + x|, IsEol, k');
    if k < |b| {
      SeekIs(b + x, k, |b + x|, IsEol, k);
    }
  }

  lemma TurnExtends(b: string, x: string, s: State)
    requires s.start <= s.checked <= |b|
    ensures var t := ParseOneLine(b, s);
            if t.verdict == Some(NoRequest) then
              t.buffer == b && ParseOneLine(b + x, t.state) == ParseOneLine(b + x, s)
            else ParseOneLine(b + x, s) == t.(buffer := t.buffer + x)
  {
    var n := NextLine(b, s.checked);
    NextLineExtends(b, x, s.checked);
    if n.status == LineOk {
      var line := CStr(n.buffer, s.start);
      LineEnds(b, s.checked, s.start);
      RestExtends(n.buffer, x, s.start, line);
      CutExtends(n.buffer, x, s.start, line);
    }
  }

  /** A call that ends without a verdict can be resumed; a verdict stands. */
  lemma {:induction false} Resume(b: string, x: string, s: State)
    requires s.start <= s.checked <= |b|
    ensures var o := Parse(b, s);
            if o.code == NoRequest then Parse(o.buffer + x, o.state) == Parse(b + x, s)
            else Parse(b + x, s) == o.(buffer := o.buffer + x)
    decreases |b| - s.checked
  {
    var t := ParseOneLine(b, s);
    TurnExtends(b, x, s);
    if t.verdict == None {
      Resume(t.buffer, x, t.state);
    }
  }

  /** What the connection has received and decided so far. */
  const NOTHING: Outcome := Outcome("", START, NoRequest)

  /** More bytes arrive: they are parsed unless a verdict was already given. */
  function Receive(o: Outcome, bytes: string): (r: Outcome)
    requires WellPlaced(o.buffer, o.state)
    ensures WellPlaced(r.buffer, r.state)
  {
    if o.code == NoRequest then Parse(o.buffer + bytes, o.state)
    else o.(buffer := o.buffer + bytes)
  }

  function Feed(o: Outcome, chunks: seq<string>): (r: Outcome)
    requires WellPlaced(o.buffer, o.state)
    ensures WellPlaced(r.buffer, r.state)
    decreases |chunks|
  {
    if chunks == [] then o else Feed(Receive(o, chunks[0]), chunks[1..])
  }

  function Concat(chunks: seq<string>): string {
    if chunks == [] then "" else chunks[0] + Concat(chunks[1..])
  }

  /** Feeding a request in any pieces ends exactly as feeding it whole: the same
      verdict, cursor, outer state, buffer contents and log. */
  lemma ChunkIndependence(chunks: seq<string>)
    ensures Feed(NOTHING, chunks) == Parse(Concat(chunks), START)
  {
    FeedFrom("", chunks);
    assert "" + Concat(chunks) == Concat(chunks);
  }

  lemma {:induction false} FeedFrom(b: string, chunks: seq<string>)
    ensures Feed(Parse(b, START), chunks) == Parse(b + Concat(chunks), START)
    decreases |chunks|
  {
    if chunks == [] {
      assert b + "" == b;
    } else {
      assert Receive(Parse(b, START), chunks[0]) == Parse(b + chunks[0], START) by {
        Resume(b, chunks[0], START);
      }
      FeedFrom(b + chunks[0], chunks[1..]);
      Regroup(b, chunks[0], Concat(chunks[1..]));
    }
  }

  /** Once a verdict is given, later bytes never change it. */
  lemma VerdictIsFinal(b: string, x: string)
    ensures Parse(b, START).code != NoRequest ==>
              Parse(b + x, START) == Parse(b, START).(buffer := Parse(b, START).buffer + x)
  {
    Resume(b, x, START);
  }

  // ----- The cursor -----

  /** The unfinished line, [start, checked), holds no CR or LF, and the line
      before it was closed with a NUL. */
  ghost predicate CursorOk(b: string, s: State) {
    && s.start <= s.checked <= |b|
    && (forall j :: s.start <= j < s.checked ==> !IsEol(b[j]))
    && (s.start > 0 ==> b[s.start - 1] == NUL)
  }

  /** The same scan without the branch for an LF whose CR was already passed. */
  function StrictLine(b: string, c: nat): Line
    requires c <= |b|
  {
    var k := Eol(b, c);
    if k == |b| || (b[k] == CR && k + 1 == |b|) then Line(b, k, LineOpen)
    else if b[k] == CR && b[k + 1] == LF then Line(b[k := NUL][k + 1 := NUL], k + 2, LineOk)
    else Line(b, k, LineBad)
  }

  /** With the cursor invariant that branch is dead. */
  lemma LateLfIsDead(b: string, s: State)
    requires CursorOk(b, s)
    ensures NextLine(b, s.checked) == StrictLine(b, s.checked)
  {
    SeekFinds(b, s.checked, |b|, IsEol);
    var k := Eol(b, s.checked);
    assert k > 0 && k < |b| ==> !IsEol(b[k - 1]);
  }

  /** `b'` differs from `b` only inside `[i, j)`. */
  predicate OnlyInside(b: string, b': string, i: nat, j: nat)
    requires i <= j <= |b|
  {
    |b'| == |b| && b'[..i] == b[..i] && b'[j..] == b[j..]
  }

  lemma OnlyInsideTwice(b: string, b1: string, b2: string, i: nat, j: nat, k: nat)
    requires i <= j <= k <= |b|
    requires OnlyInside(b, b1, i, j) && OnlyInside(b1, b2, i, k)
    ensures OnlyInside(b, b2, i, k)
  {
    assert b1[k..] == b1[j..][k - j..] == b[j..][k - j..] == b[k..];
  }

  lemma LineCloses(b: string, s: State)
    requires CursorOk(b, s) && NextLine(b, s.checked).status == LineOk
    ensures var n := NextLine(b, s.checked);
            OnlyInside(b, n.buffer, s.start, n.checked) && n.buffer[n.checked - 1] == NUL
  {
    LateLfIsDead(b, s);
  }

  lemma CutStaysInside(b: string, t: nat, l: string, end: nat)
    requires t + |l| < end <= |b| && b[end - 1] == NUL
    ensures OnlyInside(b, CutLine(b, t, l), t, end) && CutLine(b, t, l)[end - 1] == NUL
  {}

  lemma TurnKeepsCursor(b: string, s: State)
    requires CursorOk(b, s)
    ensures var t := ParseOneLine(b, s);
            && CursorOk(t.buffer, t.state)
            && s.start <= t.state.start && s.checked <= t.state.checked
            && OnlyInside(b, t.buffer, s.start, t.state.start)
  {
    if NextLine(b, s.checked).status == LineOk {
      CursorAtNextLine(b, s);
    } else {
      SeekFinds(b, s.checked, |b|, IsEol);
      LateLfIsDead(b, s);
    }
  }

  lemma CursorAtNextLine(b: string, s: State)
    requires CursorOk(b, s) && NextLine(b, s.checked).status == LineOk
    ensures var t := ParseOneLine(b, s);
            && s.checked <= t.state.start == t.state.checked
            && OnlyInside(b, t.buffer, s.start, t.state.start)
            && t.buffer[t.state.start - 1] == NUL
  {
    ClosedLineStaysInside(b, s, NextLine(b, s.checked));
    TurnOfLine(b, s);
  }

  lemma TurnOfLine(b: string, s: State)
    requires s.start <= s.checked <= |b| && NextLine(b, s.checked).status == LineOk
    ensures var n, t := NextLine(b, s.checked), ParseOneLine(b, s);
            var line := CStr(n.buffer, s.start);
            && t.state.start == t.state.checked == n.checked
            && s.start + |line| <= |b|
            && t.buffer == if s.check == InRequestLine then CutLine(n.buffer, s.start, line) else n.buffer
  {
    LineEnds(b, s.checked, s.start);
  }

  lemma ClosedLineStaysInside(b: string, s: State, n: Line)
    requires CursorOk(b, s) && n == NextLine(b, s.checked) && n.status == LineOk
    ensures OnlyInside(b, n.buffer, s.start, n.checked) && n.buffer[n.checked - 1] == NUL
    ensures var line := CStr(n.buffer, s.start);
            && s.start + |line| <= |b|
            && var cut := CutLine(n.buffer, s.start, line);
            OnlyInside(b, cut, s.start, n.checked) && cut[n.checked - 1] == NUL
  {
    var line := CStr(n.buffer, s.start);
    LineEnds(b, s.checked, s.start);
    LineCloses(b, s);
    CutStaysInside(n.buffer, s.start, line, n.checked);
    OnlyInsideTwice(b, n.buffer, CutLine(n.buffer, s.start, line), s.start, n.checked, n.checked);
  }

  /** Every call keeps the invariant, even one that ends in a verdict, moves
      the cursor only forward, and writes only inside the lines it consumed. */
  lemma {:induction false} CursorKept(b: string, s: State)
    requires CursorOk(b, s)
    ensures var o := Parse(b, s);
            && CursorOk(o.buffer, o.state)
            && s.start <= o.state.start && s.checked <= o.state.checked
            && OnlyInside(b, o.buffer, s.start, o.state.start)
    decreases |b| - s.checked
  {
    var t := ParseOneLine(b, s);
    TurnKeepsCursor(b, s);
    if t.verdict == None {
      CursorKept(t.buffer, t.state);
      var o := Parse(b, s);
      FromLater(t.buffer, o.buffer, s.start, t.state.start, o.state.start);
      OnlyInsideTwice(b, t.buffer, o.buffer, s.start, t.state.start, o.state.start);
    }
  }

  lemma FromLater(b: string, b': string, h: nat, i: nat, j: nat)
    requires h <= i <= j <= |b| && OnlyInside(b, b', i, j)
    ensures OnlyInside(b, b', h, j)
  {
    assert b'[..h] == b'[..i][..h] == b[..i][..h] == b[..h];
  }

  lemma ReceiveKeepsCursor(o: Outcome, bytes: string)
    requires CursorOk(o.buffer, o.state)
    ensures CursorOk(Receive(o, bytes).buffer, Receive(o, bytes).state)
  {
    assert CursorOk(o.buffer + bytes, o.state);
    CursorKept(o.buffer + bytes, o.state);
  }

  /** So the invariant holds however the bytes arrive. */
  lemma {:induction false} CursorAlwaysOk(chunks: seq<string>)
    ensures CursorOk(Feed(NOTHING, chunks).buffer, Feed(NOTHING, chunks).state)
  {
    FeedKeepsCursor(NOTHING, chunks);
  }

  lemma {:induction false} FeedKeepsCursor(o: Outcome, chunks: seq<string>)
    requires CursorOk(o.buffer, o.state)
    ensures CursorOk(Feed(o, chunks).buffer, Feed(o, chunks).state)
    decreases |chunks|
  {
    if chunks != [] {
      ReceiveKeepsCursor(o, chunks[0]);
      FeedKeepsCursor(Receive(o, chunks[0]), chunks[1..]);
    }
  }
}

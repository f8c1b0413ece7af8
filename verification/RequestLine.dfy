/** The request-line parser: what it accepts, and the in-place splitting code. */
module RequestLine {
  import opened CStrings
  import opened Options

  const GET: string := "GET"
  const SCHEME: string := "http://"
  const VERSION: string := "HTTP/1.1"

  /** What the parser prints, as a log. */
  datatype Event = MethodIsGet | UrlIs(url: string) | HostIs(host: string) | UnknownHeader

  /** The outcome of splitting one line: the request path if the line was
      accepted, and the log. */
  datatype Split = Split(path: Option<string>, events: seq<Event>)

  // ----- The accepted language, stated without any scanning -----

  predicate Blanks(s: string) {
    s != "" && forall i :: 0 <= i < |s| ==> IsBlank(s[i])
  }

  predicate BlankFree(s: string) {
    forall i :: 0 <= i < |s| ==> !IsBlank(s[i])
  }

  predicate StartsWithSlash(s: string) {
    s != "" && s[0] == '/'
  }

  /** `t` is an origin-form or absolute-form target whose path is `path`. */
  ghost predicate IsTarget(t: string, path: string) {
    || (StartsWithSlash(t) && path == t)
    || exists scheme, host :: IsAbsolute(t, scheme, host, path)
  }

  predicate IsAbsolute(t: string, scheme: string, host: string, path: string) {
    && t == scheme + host + path
    && EqualFold(scheme, SCHEME) && '/' !in host && StartsWithSlash(path)
  }

  /** `line` is method, blanks, target, blanks, version. */
  predicate IsRequest(line: string, m: string, b1: string, t: string, b2: string, v: string) {
    && line == m + b1 + t + b2 + v
    && EqualFold(m, GET) && Blanks(b1) && t != "" && BlankFree(t) && Blanks(b2) && EqualFold(v, VERSION)
  }

  /** `line` is a valid request line asking for `path`. */
  ghost predicate IsRequestLine(line: string, path: string) {
    exists m, b1, t, b2, v :: IsRequest(line, m, b1, t, b2, v) && IsTarget(t, path)
  }

  ghost predicate ValidRequestLine(line: string) {
    exists path :: IsRequestLine(line, path)
  }

  // ----- The words of the grammar, letter by letter -----

  /** `strcasecmp(s, "GET") == 0`, and so on for the other words. */
  lemma GetLetters(s: string)
    ensures EqualFold(s, GET) <==> |s| == 3 && s[0] in "Gg" && s[1] in "Ee" && s[2] in "Tt"
  {}

  lemma VersionLetters(s: string)
    ensures EqualFold(s, VERSION) <==>
              && |s| == 8 && s[0] in "Hh" && s[1] in "Tt" && s[2] in "Tt" && s[3] in "Pp"
              && s[4] == '/' && s[5] == '1' && s[6] == '.' && s[7] == '1'
  {}

  lemma SchemeLetters(s: string)
    ensures EqualFold(s, SCHEME) <==>
              && |s| == 7 && s[0] in "Hh" && s[1] in "Tt" && s[2] in "Tt" && s[3] in "Pp"
              && s[4] == ':' && s[5] == '/' && s[6] == '/'
    ensures StartsFold(s, SCHEME) <==>
              && |s| >= 7 && s[0] in "Hh" && s[1] in "Tt" && s[2] in "Tt" && s[3] in "Pp"
              && s[4] == ':' && s[5] == '/' && s[6] == '/'
  {}

  lemma HostLetters(s: string)
    ensures EqualFold(s, "Host:") <==>
              && |s| == 5 && s[0] in "Hh" && s[1] in "Oo" && s[2] in "Ss" && s[3] in "Tt" && s[4] == ':'
    ensures StartsFold(s, "Host:") <==>
              && |s| >= 5 && s[0] in "Hh" && s[1] in "Oo" && s[2] in "Ss" && s[3] in "Tt" && s[4] == ':'
  {}

  // ----- What the parser computes -----

  /** Strips an absolute-form prefix; a target must then start with a slash. */
  function TargetPath(t: string): Option<string> {
    if StartsFold(t, SCHEME) then
      var k := Seek(t, |SCHEME|, |t|, IsSlash);
      if k < |t| then Some(t[k..]) else None
    else if StartsWithSlash(t) then Some(t) else None
  }

  /** Where the pieces of a line begin and end. */
  function MethodEnd(l: string): (k: nat)
    ensures k <= |l|
  {
    Seek(l, 0, |l|, IsBlank)
  }

  function TargetStart(l: string): (k: nat)
    requires MethodEnd(l) < |l|
    ensures MethodEnd(l) < k <= |l|
  {
    Seek(l, MethodEnd(l) + 1, |l|, NotBlank)
  }

  function TargetEnd(l: string): (k: nat)
    requires MethodEnd(l) < |l|
    ensures TargetStart(l) <= k <= |l|
  {
    Seek(l, TargetStart(l), |l|, IsBlank)
  }

  function VersionStart(l: string): (k: nat)
    requires MethodEnd(l) < |l| && TargetEnd(l) < |l|
    ensures TargetEnd(l) < k <= |l|
  {
    Seek(l, TargetEnd(l) + 1, |l|, NotBlank)
  }

  predicate IsGet(l: string) {
    MethodEnd(l) < |l| && EqualFold(l[..MethodEnd(l)], GET)
  }

  /** The path asked for by the part of the line after its method. */
  function PathOf(l: string): Option<string>
    requires MethodEnd(l) < |l|
  {
    if TargetEnd(l) == |l| || !EqualFold(l[VersionStart(l)..], VERSION) then None
    else TargetPath(l[TargetStart(l)..TargetEnd(l)])
  }

  function SplitRequestLine(l: string): Split {
    if !IsGet(l) then Split(None, [])
    else
      match PathOf(l)
      case None => Split(None, [MethodIsGet])
      case Some(path) => Split(Some(path), [MethodIsGet, UrlIs(path)])
  }

  /** The buffer `b` after the line `l` stored at `t` was split: its separators
      are overwritten as far as the parser got. */
  function CutLine(b: string, t: nat, l: string): (r: string)
    requires t + |l| <= |b|
    ensures |r| == |b|
  {
    if MethodEnd(l) == |l| then b
    else if !IsGet(l) || TargetEnd(l) == |l| then b[t + MethodEnd(l) := NUL]
    else b[t + MethodEnd(l) := NUL][t + TargetEnd(l) := NUL]
  }

  /** With `u` the first blank of the line, `s` the end of that run of blanks and
      `e` the next blank: the blank at `u` is overwritten if there is one, and the
      one at `e` if there is one and the method is GET. */
  lemma CutLineExact(b: string, t: nat, l: string, u: nat, s: nat, e: nat)
    requires t + |l| <= |b| && u <= s <= e <= |l|
    requires forall j :: 0 <= j < u ==> !IsBlank(l[j])
    requires forall j :: u <= j < s ==> IsBlank(l[j])
    requires forall j :: s <= j < e ==> !IsBlank(l[j])
    requires (u < |l| ==> IsBlank(l[u])) && (s < |l| ==> !IsBlank(l[s])) && (e < |l| ==> IsBlank(l[e]))
    ensures CutLine(b, t, l) ==
            if u == |l| then b
            else if !EqualFold(l[..u], GET) || e == |l| then b[t + u := '\0']
            else b[t + u := '\0'][t + e := '\0']
  {
    SeekIs(l, 0, |l|, IsBlank, u);
    if u < |l| {
      SeekIs(l, u + 1, |l|, NotBlank, s);
      SeekIs(l, s, |l|, IsBlank, e);
    }
  }

  // ----- Exactness -----

  lemma TargetPathExact(t: string, path: string)
    ensures TargetPath(t) == Some(path) <==> IsTarget(t, path)
  {
    if TargetPath(t) == Some(path) && StartsFold(t, SCHEME) {
      var k := Seek(t, |SCHEME|, |t|, IsSlash);
      SeekFinds(t, |SCHEME|, |t|, IsSlash);
      assert IsAbsolute(t, t[..|SCHEME|], t[|SCHEME|..k], t[k..]);
    }
    if IsTarget(t, path) {
      if StartsWithSlash(t) && path == t {
        assert ToLower(t[0]) != ToLower(SCHEME[0]);
      } else {
        var scheme, host :| IsAbsolute(t, scheme, host, path);
        assert t[..|SCHEME|] == scheme;
        SeekIs(t, |SCHEME|, |t|, IsSlash, |SCHEME| + |host|);
      }
    }
  }

  lemma FoldsToLetters(s: string, lit: string)
    requires EqualFold(s, lit)
    requires forall i :: 0 <= i < |lit| ==> !IsBlank(ToLower(lit[i]))
    ensures BlankFree(s)
  {
    forall i | 0 <= i < |s|
      ensures !IsBlank(s[i])
    {
      assert ToLower(s[i]) == ToLower(lit[i]);
    }
  }

  /** The boundaries found by scanning are those of any decomposition. */
  lemma Boundaries(l: string, m: string, b1: string, t: string, b2: string, v: string)
    requires IsRequest(l, m, b1, t, b2, v)
    ensures |m| + |b1| + |t| + |b2| + |v| == |l|
    ensures MethodEnd(l) == |m| < |l|
    ensures TargetStart(l) == |m| + |b1|
    ensures TargetEnd(l) == |m| + |b1| + |t| < |l|
    ensures VersionStart(l) == |m| + |b1| + |t| + |b2|
  {
    var u := |m|;
    var s := u + |b1|;
    var e := s + |t|;
    var w := e + |b2|;
    FoldsToLetters(m, GET);
    FoldsToLetters(v, VERSION);
    assert forall j :: 0 <= j < u ==> l[j] == m[j];
    assert forall j :: u <= j < s ==> l[j] == b1[j - u];
    assert forall j :: s <= j < e ==> l[j] == t[j - s];
    assert forall j :: e <= j < w ==> l[j] == b2[j - e];
    assert l[w] == v[0];
    Scan(l, u, s, e, w);
  }

  lemma Scan(l: string, u: nat, s: nat, e: nat, w: nat)
    requires u < s < e < w < |l|
    requires forall j :: 0 <= j < u ==> !IsBlank(l[j])
    requires forall j :: u <= j < s ==> IsBlank(l[j])
    requires forall j :: s <= j < e ==> !IsBlank(l[j])
    requires forall j :: e <= j < w ==> IsBlank(l[j])
    requires !IsBlank(l[w])
    ensures MethodEnd(l) == u && TargetStart(l) == s && TargetEnd(l) == e && VersionStart(l) == w
  {
    SeekIs(l, 0, |l|, IsBlank, u);
    SeekIs(l, u + 1, |l|, NotBlank, s);
    SeekIs(l, s, |l|, IsBlank, e);
    SeekIs(l, e + 1, |l|, NotBlank, w);
  }

  lemma Slices(l: string, m: string, b1: string, t: string, b2: string, v: string)
    requires l == m + b1 + t + b2 + v
    ensures l[..|m|] == m
    ensures l[|m| + |b1|..|m| + |b1| + |t|] == t
    ensures l[|m| + |b1| + |t| + |b2|..] == v
  {}

  /** The parser accepts exactly the request lines, with exactly their path. */
  lemma SplitExact(l: string, path: string)
    ensures SplitRequestLine(l).path == Some(path) <==> IsRequestLine(l, path)
  {
    if SplitRequestLine(l).path == Some(path) {
      SplitSound(l, path);
    }
    if IsRequestLine(l, path) {
      var m, b1, t, b2, v :| IsRequest(l, m, b1, t, b2, v) && IsTarget(t, path);
      SplitComplete(l, m, b1, t, b2, v, path);
    }
  }

  lemma SplitSound(l: string, path: string)
    requires SplitRequestLine(l).path == Some(path)
    ensures IsRequestLine(l, path)
  {
    var u, s, e, w := MethodEnd(l), TargetStart(l), TargetEnd(l), VersionStart(l);
    TargetPathExact(l[s..e], path);
    PiecesAreRequest(l, u, s, e, w);
  }

  lemma SplitComplete(l: string, m: string, b1: string, t: string, b2: string, v: string, path: string)
    requires IsRequest(l, m, b1, t, b2, v) && IsTarget(t, path)
    ensures SplitRequestLine(l).path == Some(path)
  {
    SplitOfRequest(l, m, b1, t, b2, v);
    TargetPathExact(t, path);
  }

  lemma SplitOfRequest(l: string, m: string, b1: string, t: string, b2: string, v: string)
    requires IsRequest(l, m, b1, t, b2, v)
    ensures SplitRequestLine(l).path == TargetPath(t)
  {
    Boundaries(l, m, b1, t, b2, v);
    Slices(l, m, b1, t, b2, v);
    assert IsGet(l) && l[TargetStart(l)..TargetEnd(l)] == t && l[VersionStart(l)..] == v;
  }

  lemma PiecesAreRequest(l: string, u: nat, s: nat, e: nat, w: nat)
    requires u == MethodEnd(l) < |l| && s == TargetStart(l)
    requires s < e == TargetEnd(l) < |l| && w == VersionStart(l)
    requires EqualFold(l[..u], GET) && EqualFold(l[w..], VERSION)
    ensures IsRequest(l, l[..u], l[u..s], l[s..e], l[e..w], l[w..])
  {
    Cut(l, u, s, e, w);
    BlanksOf(l, u, s) by {
      SeekFinds(l, 0, |l|, IsBlank);
      SeekFinds(l, u + 1, |l|, NotBlank);
    }
    BlankFreeOf(l, s, e) by {
      SeekFinds(l, s, |l|, IsBlank);
    }
    BlanksOf(l, e, w) by {
      SeekFinds(l, s, |l|, IsBlank);
      SeekFinds(l, e + 1, |l|, NotBlank);
    }
  }

  lemma BlanksOf(l: string, i: nat, j: nat)
    requires i < j <= |l| && forall k :: i <= k < j ==> IsBlank(l[k])
    ensures Blanks(l[i..j])
  {}

  lemma BlankFreeOf(l: string, i: nat, j: nat)
    requires i <= j <= |l| && forall k :: i <= k < j ==> !IsBlank(l[k])
    ensures BlankFree(l[i..j])
  {}

  lemma Cut(l: string, u: nat, s: nat, e: nat, w: nat)
    requires u <= s <= e <= w <= |l|
    ensures l == l[..u] + l[u..s] + l[s..e] + l[e..w] + l[w..]
  {}

  /** A line of that shape is split in place: its method, target and version can
      afterwards be read as C strings where they stood. */
  lemma SplitInPlace(l: string, m: string, b1: string, t: string, b2: string, v: string)
    requires NUL !in l
    requires IsRequest(l, m, b1, t, b2, v)
    ensures |m| + |b1| + |t| + |b2| <= |l|
    ensures var cut := CutLine(l + [NUL], 0, l);
            CStr(cut, 0) == m && CStr(cut, |m| + |b1|) == t && CStr(cut, |m| + |b1| + |t| + |b2|) == v
  {
    var u, s := |m|, |m| + |b1|;
    var e, w := s + |t|, s + |t| + |b2|;
    assert u < s < e < w <= |l| && l[..u] == m && l[s..e] == t && l[w..] == v by {
      Slices(l, m, b1, t, b2, v);
    }
    assert CutLine(l + [NUL], 0, l) == (l + [NUL])[u := NUL][e := NUL] by {
      Boundaries(l, m, b1, t, b2, v);
    }
    ReadBack(l, u, s, e, w);
  }

  lemma ReadBack(l: string, u: nat, s: nat, e: nat, w: nat)
    requires u < s <= e < w <= |l| && NUL !in l
    ensures var cut := (l + [NUL])[u := NUL][e := NUL];
            CStr(cut, 0) == l[..u] && CStr(cut, s) == l[s..e] && CStr(cut, w) == l[w..]
  {
    var cut := (l + [NUL])[u := NUL][e := NUL];
    CStrIs(cut, 0, l[..u]);
    CStrIs(cut, s, l[s..e]);
    CStrIs(cut, w, l[w..]);
  }

  /** The log of an accepted line names its path; a rejected line is logged
      only if its method was GET followed by a blank. */
  lemma SplitEvents(l: string)
    ensures var r := SplitRequestLine(l);
            var isGet := |l| > 3 && EqualFold(l[..3], GET) && IsBlank(l[3]);
            r.events == (if isGet then [MethodIsGet] else []) + (if r.path.Some? then [UrlIs(r.path.value)] else [])
  {
    SeekFinds(l, 0, |l|, IsBlank);
    if |l| > 3 && EqualFold(l[..3], GET) && IsBlank(l[3]) {
      FoldsToLetters(l[..3], GET);
      assert forall j :: 0 <= j < 3 ==> l[j] == l[..3][j];
      SeekIs(l, 0, |l|, IsBlank, 3);
    }
  }

  /** Printing a request and parsing it recovers the path, whatever host is
      put in front of it. */
  lemma RoundTrip(path: string, host: string, absolute: bool)
    requires StartsWithSlash(path) && BlankFree(path)
    requires BlankFree(host) && '/' !in host
    ensures SplitRequestLine(Print(path, host, absolute)).path == Some(path)
  {
    var t := if absolute then SCHEME + host + path else path;
    if absolute {
      assert IsAbsolute(t, SCHEME, host, path);
    }
    assert IsRequest(Print(path, host, absolute), GET, " ", t, " ", VERSION);
    SplitExact(Print(path, host, absolute), path);
  }

  function Print(path: string, host: string, absolute: bool): string {
    GET + " " + (if absolute then SCHEME + host + path else path) + " " + VERSION
  }
}

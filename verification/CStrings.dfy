/** The C string routines the request parser relies on, over NUL-terminated
    text inside a character buffer. */
module CStrings {
  const NUL: char := '\0'
  const CR: char := '\r'
  const LF: char := '\n'
  const CRLF: string := "\r\n"

  predicate IsNul(c: char) { c == NUL }

  predicate IsBlank(c: char) { c == ' ' || c == '\t' }

  predicate NotBlank(c: char) { !IsBlank(c) }

  predicate IsSlash(c: char) { c == '/' }

  predicate IsEol(c: char) { c == CR || c == LF }

  /** The first position in `[i, end)` whose character satisfies `p`, or `end`. */
  function Seek(s: string, i: nat, end: nat, p: char -> bool): (k: nat)
    requires i <= end <= |s|
    ensures i <= k <= end
    decreases end - i
  {
    if i == end || p(s[i]) then i else Seek(s, i + 1, end, p)
  }

  lemma {:induction false} SeekFinds(s: string, i: nat, end: nat, p: char -> bool)
    requires i <= end <= |s|
    ensures forall j :: i <= j < Seek(s, i, end, p) ==> !p(s[j])
    ensures Seek(s, i, end, p) < end ==> p(s[Seek(s, i, end, p)])
    decreases end - i
  {
    if i < end && !p(s[i]) {
      SeekFinds(s, i + 1, end, p);
    }
  }

  /** These facts determine the position. */
  lemma SeekIs(s: string, i: nat, end: nat, p: char -> bool, k: nat)
    requires i <= k <= end <= |s|
    requires forall j :: i <= j < k ==> !p(s[j])
    requires k < end ==> p(s[k])
    ensures Seek(s, i, end, p) == k
  {
    SeekFinds(s, i, end, p);
    var f := Seek(s, i, end, p);
    assert !(f < k) && !(k < f);
  }

  /** Seeking in a stretch of `b` is seeking in that stretch on its own. */
  lemma SeekShift(b: string, t: nat, l: string, i: nat, p: char -> bool)
    requires t + |l| <= |b| && i <= |l|
    requires forall j :: i <= j < |l| ==> b[t + j] == l[j]
    ensures Seek(b, t + i, t + |l|, p) == t + Seek(l, i, |l|, p)
  {
    var k := Seek(l, i, |l|, p);
    SeekFinds(l, i, |l|, p);
    forall j | t + i <= j < t + k
      ensures !p(b[j])
    {
      assert b[t + (j - t)] == l[j - t];
    }
    SeekIs(b, t + i, t + |l|, p, t + k);
  }

  /** Where the C string that starts at offset `i` ends. */
  function StrEnd(b: string, i: nat): (e: nat)
    requires i <= |b|
    ensures i <= e <= |b|
  {
    Seek(b, i, |b|, IsNul)
  }

  /** The C string that starts at offset `i`: everything up to the first NUL. */
  function CStr(b: string, i: nat): string
    requires i <= |b|
  {
    b[i..StrEnd(b, i)]
  }

  /** A C string is recognised by its text and its terminator. */
  lemma CStrIs(b: string, i: nat, s: string)
    requires i + |s| < |b|
    requires forall j :: 0 <= j < |s| ==> b[i + j] == s[j]
    requires NUL !in s
    requires b[i + |s|] == NUL
    ensures StrEnd(b, i) == i + |s| && CStr(b, i) == s
  {
    forall j | i <= j < i + |s|
      ensures !IsNul(b[j])
    {
      assert b[i + (j - i)] == s[j - i];
    }
    SeekIs(b, i, |b|, IsNul, i + |s|);
  }

  function ToLower(c: char): char {
    if 'A' <= c <= 'Z' then (c as int + 32) as char else c
  }

  /** `strcasecmp(s, t) == 0` in the C locale. */
  predicate EqualFold(s: string, t: string) {
    |s| == |t| && forall i :: 0 <= i < |s| ==> ToLower(s[i]) == ToLower(t[i])
  }

  /** The characters meant by the names above, written out. */
  lemma Characters(c: char)
    ensures NUL == '\0' && CRLF == ['\r', '\n']
    ensures IsNul(c) <==> c == '\0'
    ensures IsBlank(c) <==> c == ' ' || c == '\t'
    ensures NotBlank(c) <==> c != ' ' && c != '\t'
    ensures IsSlash(c) <==> c == '/'
    ensures IsEol(c) <==> c == '\r' || c == '\n'
  {}

  /** `strncasecmp(s, t, strlen(t)) == 0`. */
  predicate StartsFold(s: string, t: string) {
    |t| <= |s| && EqualFold(s[..|t|], t)
  }
}

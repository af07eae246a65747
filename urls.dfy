/**
 * The network-location part of a URL, as Python 2.7's `urlparse(u)[1]`
 * computes it. `urlparse` is not part of this model; this is a stand-in
 * that follows its splitting rule:
 *   - if the text before the first ':' is non-empty and made of scheme
 *     characters, that text and the ':' are the scheme and are removed;
 *   - if what remains starts with "//", the network location is what follows,
 *     up to the first '/', '?' or '#' (or the end);
 *   - otherwise the network location is empty.
 * `urlsplit` also declines a scheme whose remainder is all digits (a port
 * number); such a remainder never starts with "//", so the network location
 * is empty either way, and that check is not repeated here.
 */
module Urls {

  /** Letters, digits, '+', '-' and '.'. */
  predicate IsSchemeChar(c: char) {
    ('a' <= c <= 'z') || ('A' <= c <= 'Z') || ('0' <= c <= '9') || c == '+' || c == '-' || c == '.'
  }

  /** The characters that end a network location. */
  predicate EndsNetloc(c: char) {
    c == '/' || c == '?' || c == '#'
  }

  /** The first position of ':' in `s`, or |s| when there is none. */
  function FindColon(s: string): (i: nat)
    ensures i <= |s|
    ensures forall j :: 0 <= j < i ==> s[j] != ':'
    ensures i < |s| ==> s[i] == ':'
  {
    if s == [] || s[0] == ':' then 0 else 1 + FindColon(s[1..])
  }

  /** The first position in `s` of a character that ends a network location, or |s| when there is none. */
  function NetlocLength(s: string): (i: nat)
    ensures i <= |s|
    ensures forall j :: 0 <= j < i ==> !EndsNetloc(s[j])
    ensures i < |s| ==> EndsNetloc(s[i])
  {
    if s == [] || EndsNetloc(s[0]) then 0 else 1 + NetlocLength(s[1..])
  }

  predicate IsScheme(s: string) {
    s != [] && forall j :: 0 <= j < |s| ==> IsSchemeChar(s[j])
  }

  /** The URL with its scheme and ':' removed, or the whole URL when it has no scheme. */
  function WithoutScheme(u: string): string {
    var i := FindColon(u);
    if i < |u| && IsScheme(u[..i]) then u[i + 1..] else u
  }

  /** `urlparse(u)[1]`: the host (and port, if any) of `u`. */
  function Netloc(u: string): (h: string)
    ensures forall j :: 0 <= j < |h| ==> !EndsNetloc(h[j])
    ensures |h| <= |u|
  {
    var rest := WithoutScheme(u);
    if |rest| >= 2 && rest[..2] == "//" then rest[2..][..NetlocLength(rest[2..])] else ""
  }

  /**
   * Taking apart a URL built as scheme "://" host path gives back the host,
   * when the host holds no '/', '?' or '#' and the path is empty or starts
   * with one of them.
   */
  lemma NetlocOfServerUrl(scheme: string, host: string, path: string)
    requires IsScheme(scheme)
    requires forall j :: 0 <= j < |host| ==> !EndsNetloc(host[j])
    requires path == [] || EndsNetloc(path[0])
    ensures Netloc(scheme + "://" + host + path) == host
  {
    var u := scheme + "://" + host + path;
    SchemeIsStripped(scheme, "//" + host + path);
    assert u == scheme + ":" + ("//" + host + path);
    var rest := WithoutScheme(u);
    assert rest[..2] == "//";
    assert rest[2..] == host + path;
    NetlocEndsAtPath(host, path);
  }

  /** A URL that starts with a scheme and ':' loses exactly those. */
  lemma SchemeIsStripped(scheme: string, rest: string)
    requires IsScheme(scheme)
    ensures WithoutScheme(scheme + ":" + rest) == rest
  {
    var u := scheme + ":" + rest;
    var n := |scheme|;
    assert forall j :: 0 <= j < n ==> u[j] == scheme[j] && u[j] != ':';
    assert u[n] == ':';
    assert FindColon(u) == n;
    assert u[..n] == scheme;
    assert u[n + 1..] == rest;
  }

  /** The network location runs up to the path. */
  lemma NetlocEndsAtPath(host: string, path: string)
    requires forall j :: 0 <= j < |host| ==> !EndsNetloc(host[j])
    requires path == [] || EndsNetloc(path[0])
    ensures NetlocLength(host + path) == |host|
    ensures (host + path)[..NetlocLength(host + path)] == host
  {
    var t := host + path;
    assert forall j :: 0 <= j < |host| ==> t[j] == host[j];
    assert |host| < |t| ==> t[|host|] == path[0];
    assert NetlocLength(t) == |host|;
    assert t[..|host|] == host;
  }

  /**
   * The table key is the host alone: the same host under two different
   * schemes, with any two paths, gives the same key.
   */
  lemma SchemeIsNotPartOfKey(scheme1: string, scheme2: string, host: string, path1: string, path2: string)
    requires IsScheme(scheme1) && IsScheme(scheme2)
    requires forall j :: 0 <= j < |host| ==> !EndsNetloc(host[j])
    requires path1 == [] || EndsNetloc(path1[0])
    requires path2 == [] || EndsNetloc(path2[0])
    ensures Netloc(scheme1 + "://" + host + path1) == Netloc(scheme2 + "://" + host + path2)
  {
    NetlocOfServerUrl(scheme1, host, path1);
    NetlocOfServerUrl(scheme2, host, path2);
  }
}

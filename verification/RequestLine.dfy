/**
 The request line thread_pool/http_conn.cc accepts (sections 3.1.1 and 5.3 of RFC 7230),
 parsed as parse_request_line does it and described as a grammar.
 */
module RequestLine {
  import opened Wrappers

  predicate IsBlank(c: char) {
    c == ' ' || c == '\t'
  }

  predicate Blanks(s: string) {
    forall i :: 0 <= i < |s| ==> IsBlank(s[i])
  }

  predicate NoBlank(s: string) {
    forall i :: 0 <= i < |s| ==> !IsBlank(s[i])
  }

  /** tolower in the C locale. */
  function Lower(c: char): char {
    if 'A' <= c <= 'Z' then c + 32 as char else c
  }

  predicate SameIgnoringCase(a: string, b: string) {
    |a| == |b| && forall i :: 0 <= i < |a| ==> Lower(a[i]) == Lower(b[i])
  }

  /** How many leading characters satisfy `p` (strspn), or fail it (strcspn). */
  function Span(s: string, blank: bool): (n: nat)
    ensures n <= |s|
    ensures forall i :: 0 <= i < n ==> IsBlank(s[i]) == blank
    ensures n < |s| ==> IsBlank(s[n]) != blank
  {
    if s == "" || IsBlank(s[0]) != blank then 0
    else
      var m := Span(s[1..], blank);
      assert forall i :: 1 <= i < m + 1 ==> s[i] == s[1..][i - 1];
      m + 1
  }

  lemma SpanIs(s: string, blank: bool, n: nat)
    requires n <= |s|
    requires forall i :: 0 <= i < n ==> IsBlank(s[i]) == blank
    requires n < |s| ==> IsBlank(s[n]) != blank
    ensures Span(s, blank) == n
  {
  }

  /** strchr: the first position of `c`, or the length. */
  function Find(s: string, c: char): (n: nat)
    ensures n <= |s|
    ensures forall i :: 0 <= i < n ==> s[i] != c
    ensures n < |s| ==> s[n] == c
  {
    if s == "" || s[0] == c then 0
    else
      var m := Find(s[1..], c);
      assert forall i :: 1 <= i < m + 1 ==> s[i] == s[1..][i - 1];
      m + 1
  }

  /** The path inside the request target: all of it, or what follows http:// and the host. */
  function PathOf(target: string): Option<string> {
    if |target| >= 7 && SameIgnoringCase(target[..7], "http://") then
      var k := Find(target[7..], '/');
      if k < |target| - 7 then Some(target[7 + k..]) else None
    else if target != "" && target[0] == '/' then Some(target)
    else None
  }

  /** The three words of a line: up to the first blank, up to the next blank after that run,
      and everything behind the second run of blanks. */
  datatype Words = Words(method_: string, target: string, version: string)

  /** strpbrk and strspn: the word before the first blank, and what follows that run of blanks. */
  function Cut(line: string): Option<(string, string)> {
    var a := Span(line, false);
    if a == |line| then None
    else Some((line[..a], line[a + 1 + Span(line[a + 1..], true)..]))
  }

  function Split(line: string): Option<Words> {
    var first := Cut(line);
    if first.None? then None
    else
      var second := Cut(first.value.1);
      if second.None? then None
      else Some(Words(first.value.0, second.value.0, second.value.1))
  }

  /** What parse_request_line makes of a line: the path, or refusal. */
  function Parse(line: string): Option<string> {
    var w := Split(line);
    if w.None? then None
    else if !SameIgnoringCase(w.value.method_, "GET") then None
    else if !SameIgnoringCase(w.value.version, "HTTP/1.1") then None
    else PathOf(w.value.target)
  }

  /** Parsing, cut by cut. */
  lemma ParseCuts(line: string)
    ensures Parse(line).Some? <==>
      && Cut(line).Some?
      && SameIgnoringCase(Cut(line).value.0, "GET")
      && var cut := Cut(Cut(line).value.1);
      cut.Some? && SameIgnoringCase(cut.value.1, "HTTP/1.1") && PathOf(cut.value.0).Some?
    ensures Parse(line).Some? ==> Parse(line) == PathOf(Cut(Cut(line).value.1).value.0)
  {
  }

  /** A line of the grammar: GET, blanks, target, blanks, HTTP/1.1. */
  ghost predicate RequestLine(line: string, m: string, b1: string, target: string, b2: string, v: string) {
    && line == m + b1 + target + b2 + v
    && SameIgnoringCase(m, "GET") && SameIgnoringCase(v, "HTTP/1.1")
    && b1 != "" && Blanks(b1) && b2 != "" && Blanks(b2)
    && target != "" && NoBlank(target)
  }

  lemma KeywordsHaveNoBlank(s: string)
    requires SameIgnoringCase(s, "GET") || SameIgnoringCase(s, "HTTP/1.1")
    ensures NoBlank(s) && s != ""
  {
  }

  ghost predicate StartsWord(s: string) {
    s != "" ==> !IsBlank(s[0])
  }

  lemma CutOf(word: string, b: string, rest: string)
    requires NoBlank(word) && b != "" && Blanks(b) && StartsWord(rest)
    ensures Cut(word + b + rest) == Some((word, rest))
  {
    var line, a := word + b + rest, |word|;
    assert line[a] == b[0] && line[..a] == word;
    SpanIs(line, false, a);
    assert line[a + 1..] == b[1..] + rest;
    assert rest != "" ==> (b[1..] + rest)[|b| - 1] == rest[0];
    SpanIs(b[1..] + rest, true, |b| - 1);
    assert line[a + 1 + (|b| - 1)..] == rest;
  }

  lemma CutJoins(line: string) returns (b: string)
    requires Cut(line).Some?
    ensures var (word, rest) := Cut(line).value;
      && line == word + b + rest && NoBlank(word) && b != "" && Blanks(b) && StartsWord(rest)
      && (StartsWord(line) ==> word != "")
  {
    hide Span;
    var a := Span(line, false);
    var n := 1 + Span(line[a + 1..], true);
    b := line[a..a + n];
    assert forall i :: 1 <= i < n ==> b[i] == line[a + 1..][i - 1];
    assert a + n < |line| ==> line[a + n] == line[a + 1..][n - 1];
  }

  /** A line of the grammar is split into exactly its words. */
  lemma SplitsGrammar(line: string, m: string, b1: string, target: string, b2: string, v: string)
    requires RequestLine(line, m, b1, target, b2, v)
    ensures Split(line) == Some(Words(m, target, v))
  {
    hide Cut, SameIgnoringCase;
    KeywordsHaveNoBlank(m);
    KeywordsHaveNoBlank(v);
    assert line == m + b1 + (target + b2 + v);
    CutOf(m, b1, target + b2 + v);
    CutOf(target, b2, v);
  }

  /** A line that is split is its words with blanks between them. */
  lemma SplitJoins(line: string) returns (b1: string, b2: string)
    requires Split(line).Some?
    ensures var w := Split(line).value;
      && line == w.method_ + b1 + w.target + b2 + w.version
      && b1 != "" && Blanks(b1) && b2 != "" && Blanks(b2) && w.target != "" && NoBlank(w.target)
  {
    hide Cut;
    b1 := CutJoins(line);
    var rest := Cut(line).value.1;
    b2 := CutJoins(rest);
    var (target, version) := Cut(rest).value;
    assert line == Cut(line).value.0 + b1 + target + b2 + version;
  }

  /** A target in origin form (a path) or in absolute form (http://, a host, a path), sections
      5.3.1 and 5.3.2 of RFC 7230, with the scheme in any case. */
  ghost predicate TargetForm(target: string, scheme: string, host: string, p: string) {
    && p != "" && p[0] == '/'
    && target == scheme + host + p
    && if scheme == "" then host == "" else SameIgnoringCase(scheme, "http://") && '/' !in host
  }

  lemma TargetHasPath(target: string, scheme: string, host: string, p: string)
    requires TargetForm(target, scheme, host, p)
    ensures PathOf(target) == Some(p)
  {
    hide Find;
    if scheme == "" {
      assert target == p;
      assert |p| >= 7 ==> Lower(p[..7][0]) != Lower("http://"[0]);
    } else {
      assert target[..7] == scheme && target[7..] == host + p;
      assert forall i :: 0 <= i < |host| ==> host[i] in host && (host + p)[i] == host[i];
      FindIs(host + p, '/', |host|);
      assert target[7 + |host|..] == p;
    }
  }

  lemma PathHasTarget(target: string, p: string) returns (scheme: string, host: string)
    requires PathOf(target) == Some(p)
    ensures TargetForm(target, scheme, host, p)
  {
    hide Find;
    if |target| >= 7 && SameIgnoringCase(target[..7], "http://") {
      var k := Find(target[7..], '/');
      scheme, host := target[..7], target[7..][..k];
      assert p[0] == target[7..][k];
      assert forall i :: 0 <= i < |host| ==> host[i] == target[7..][i];
    } else {
      scheme, host := "", "";
    }
  }

  /** The path the code takes from a target is the path of one of the two forms, both ways. */
  lemma PathIsTarget(target: string, p: string)
    ensures PathOf(target) == Some(p) <==> exists s, h :: TargetForm(target, s, h, p)
  {
    hide PathOf, TargetForm;
    if PathOf(target) == Some(p) {
      var s, h := PathHasTarget(target, p);
    }
    if exists s, h :: TargetForm(target, s, h, p) {
      var s, h :| TargetForm(target, s, h, p);
      TargetHasPath(target, s, h, p);
    }
  }

  /** A request for path `p`: a line of the grammar whose target has one of the two forms. */
  ghost predicate Request(line: string, p: string) {
    exists m, b1, target, b2, v, s, h :: RequestLine(line, m, b1, target, b2, v) && TargetForm(target, s, h, p)
  }

  /** Main result, both ways: a line is accepted with path `p` exactly when it belongs to the
      grammar and its target is `p`, or http://, a host and `p`. */
  lemma ParseIsGrammar(line: string, p: string)
    ensures Parse(line) == Some(p) <==> Request(line, p)
  {
    hide Split, PathOf, TargetForm, SameIgnoringCase;
    if Parse(line) == Some(p) {
      var w := Split(line).value;
      var b1, b2 := SplitJoins(line);
      assert RequestLine(line, w.method_, b1, w.target, b2, w.version);
      var s, h := PathHasTarget(w.target, p);
    }
    if Request(line, p) {
      var m, b1, target, b2, v, s, h :| RequestLine(line, m, b1, target, b2, v) && TargetForm(target, s, h, p);
      PrintedParses(line, m, b1, target, b2, v, s, h, p);
    }
  }

  /** Round trip: however a request is printed, in either form, with any blanks and with the
      keywords and the scheme in any case, it comes back as its path. */
  lemma PrintedParses(line: string, m: string, b1: string, target: string, b2: string, v: string,
                      s: string, h: string, p: string)
    requires RequestLine(line, m, b1, target, b2, v) && TargetForm(target, s, h, p)
    ensures Parse(line) == Some(p)
  {
    hide Split, PathOf, TargetForm, SameIgnoringCase;
    SplitsGrammar(line, m, b1, target, b2, v);
    TargetHasPath(target, s, h, p);
  }

  /** In particular, origin form ... */
  lemma OriginFormParses(path: string, b1: string, b2: string)
    requires path != "" && path[0] == '/' && NoBlank(path)
    requires b1 != "" && Blanks(b1) && b2 != "" && Blanks(b2)
    ensures Parse("GET" + b1 + path + b2 + "HTTP/1.1") == Some(path)
  {
    hide Parse;
    assert path == "" + "" + path;
    PrintedParses("GET" + b1 + path + b2 + "HTTP/1.1", "GET", b1, path, b2, "HTTP/1.1", "", "", path);
  }

  /** ... and absolute form. */
  lemma AbsoluteFormParses(host: string, path: string, b1: string, b2: string)
    requires path != "" && path[0] == '/' && NoBlank(path)
    requires NoBlank(host) && '/' !in host
    requires b1 != "" && Blanks(b1) && b2 != "" && Blanks(b2)
    ensures Parse("GET" + b1 + ("http://" + host + path) + b2 + "HTTP/1.1") == Some(path)
  {
    hide Parse;
    var target := "http://" + host + path;
    PrintedParses("GET" + b1 + target + b2 + "HTTP/1.1", "GET", b1, target, b2, "HTTP/1.1", "http://", host, path);
  }

  /** A line is a request for at most one path. */
  lemma RequestIsUnambiguous(line: string, p: string, q: string)
    requires Request(line, p) && Request(line, q)
    ensures p == q
  {
    hide Request, Parse;
    ParseIsGrammar(line, p);
    ParseIsGrammar(line, q);
  }

  lemma FindIs(s: string, c: char, n: nat)
    requires n < |s| && s[n] == c && forall i :: 0 <= i < n ==> s[i] != c
    ensures Find(s, c) == n
  {
  }

  // ---------- the accepted lines, character by character ----------

  /** Round trip in plain characters: `GET`, blanks (spaces and tabs), a path, or `http://`, a
      host and a path, blanks, `HTTP/1.1`, with every keyword letter in either case. */
  lemma PlainRequestParses(m: string, b1: string, scheme: string, host: string, path: string, b2: string, v: string)
    requires |m| == 3 && forall i :: 0 <= i < 3 ==> m[i] == "GET"[i] || m[i] == "get"[i]
    requires |v| == 8 && forall i :: 0 <= i < 8 ==> v[i] == "HTTP/1.1"[i] || v[i] == "http/1.1"[i]
    requires b1 != "" && forall i :: 0 <= i < |b1| ==> b1[i] == ' ' || b1[i] == '\t'
    requires b2 != "" && forall i :: 0 <= i < |b2| ==> b2[i] == ' ' || b2[i] == '\t'
    requires path != "" && path[0] == '/' && forall i :: 0 <= i < |path| ==> path[i] != ' ' && path[i] != '\t'
    requires if scheme == "" then host == "" else
      && |scheme| == 7 && (forall i :: 0 <= i < 7 ==> scheme[i] == "HTTP://"[i] || scheme[i] == "http://"[i])
      && (forall i :: 0 <= i < |host| ==> host[i] != ' ' && host[i] != '\t' && host[i] != '/')
    ensures Parse(m + b1 + (scheme + host + path) + b2 + v) == Some(path)
  {
    var target := scheme + host + path;
    PlainKeywords(m, v);
    if scheme != "" {
      PlainScheme(scheme);
    }
    assert NoBlank(target);
    assert TargetForm(target, scheme, host, path);
    PrintedParses(m + b1 + target + b2 + v, m, b1, target, b2, v, scheme, host, path);
  }

  lemma PlainKeywords(m: string, v: string)
    requires |m| == 3 && |v| == 8
    ensures SameIgnoringCase(m, "GET") <==> forall i :: 0 <= i < 3 ==> m[i] == "GET"[i] || m[i] == "get"[i]
    ensures SameIgnoringCase(v, "HTTP/1.1") <==> forall i :: 0 <= i < 8 ==> v[i] == "HTTP/1.1"[i] || v[i] == "http/1.1"[i]
  {
  }

  lemma PlainScheme(s: string)
    requires |s| == 7
    ensures SameIgnoringCase(s, "http://") <==> forall i :: 0 <= i < 7 ==> s[i] == "HTTP://"[i] || s[i] == "http://"[i]
  {
  }

  lemma KeywordLengths(m: string, v: string)
    requires SameIgnoringCase(m, "GET") && SameIgnoringCase(v, "HTTP/1.1")
    ensures |m| == 3 && |v| == 8
  {
  }

  lemma PlainTarget(target: string, scheme: string, host: string, path: string)
    requires TargetForm(target, scheme, host, path) && NoBlank(target)
    ensures target == scheme + host + path
    ensures path != "" && path[0] == '/' && forall i :: 0 <= i < |path| ==> path[i] != ' ' && path[i] != '\t'
    ensures if scheme == "" then host == "" else
      && |scheme| == 7 && (forall i :: 0 <= i < 7 ==> scheme[i] == "HTTP://"[i] || scheme[i] == "http://"[i])
      && (forall i :: 0 <= i < |host| ==> host[i] != ' ' && host[i] != '\t' && host[i] != '/')
  {
    if scheme != "" {
      PlainScheme(scheme);
    }
    hide SameIgnoringCase;
    assert forall i :: 0 <= i < |path| ==> path[i] == target[|scheme| + |host| + i];
    assert forall i :: 0 <= i < |host| ==> host[i] == target[|scheme| + i];
  }

  /** The converse, in the same terms: a line is accepted only if it is such a request, and the
      answer is its path. */
  lemma AcceptedIsPlain(line: string)
    returns (m: string, b1: string, scheme: string, host: string, path: string, b2: string, v: string)
    requires Parse(line).Some?
    ensures line == m + b1 + (scheme + host + path) + b2 + v && Parse(line) == Some(path)
    ensures |m| == 3 && forall i :: 0 <= i < 3 ==> m[i] == "GET"[i] || m[i] == "get"[i]
    ensures |v| == 8 && forall i :: 0 <= i < 8 ==> v[i] == "HTTP/1.1"[i] || v[i] == "http/1.1"[i]
    ensures b1 != "" && forall i :: 0 <= i < |b1| ==> b1[i] == ' ' || b1[i] == '\t'
    ensures b2 != "" && forall i :: 0 <= i < |b2| ==> b2[i] == ' ' || b2[i] == '\t'
    ensures path != "" && path[0] == '/' && forall i :: 0 <= i < |path| ==> path[i] != ' ' && path[i] != '\t'
    ensures if scheme == "" then host == "" else
      && |scheme| == 7 && (forall i :: 0 <= i < 7 ==> scheme[i] == "HTTP://"[i] || scheme[i] == "http://"[i])
      && (forall i :: 0 <= i < |host| ==> host[i] != ' ' && host[i] != '\t' && host[i] != '/')
  {
    hide SameIgnoringCase, TargetForm;
    path := Parse(line).value;
    hide Parse;
    ParseIsGrammar(line, path);
    var target: string;
    m, b1, target, b2, v, scheme, host :|
      RequestLine(line, m, b1, target, b2, v) && TargetForm(target, scheme, host, path);
    KeywordLengths(m, v);
    PlainKeywords(m, v);
    PlainTarget(target, scheme, host, path);
  }

  /** The pieces a request line is printed from. */
  datatype Printed = Printed(m: string, b1: string, scheme: string, host: string, path: string, b2: string, v: string)

  lemma PrintedRecord(line: string, w: Printed)
    ensures
      && line == w.m + w.b1 + (w.scheme + w.host + w.path) + w.b2 + w.v
      && |w.m| == 3 && (forall i :: 0 <= i < 3 ==> w.m[i] == "GET"[i] || w.m[i] == "get"[i])
      && |w.v| == 8 && (forall i :: 0 <= i < 8 ==> w.v[i] == "HTTP/1.1"[i] || w.v[i] == "http/1.1"[i])
      && w.b1 != "" && (forall i :: 0 <= i < |w.b1| ==> w.b1[i] == ' ' || w.b1[i] == '\t')
      && w.b2 != "" && (forall i :: 0 <= i < |w.b2| ==> w.b2[i] == ' ' || w.b2[i] == '\t')
      && w.path != "" && w.path[0] == '/' && (forall i :: 0 <= i < |w.path| ==> w.path[i] != ' ' && w.path[i] != '\t')
      && (if w.scheme == "" then w.host == "" else
            && |w.scheme| == 7 && (forall i :: 0 <= i < 7 ==> w.scheme[i] == "HTTP://"[i] || w.scheme[i] == "http://"[i])
            && (forall i :: 0 <= i < |w.host| ==> w.host[i] != ' ' && w.host[i] != '\t' && w.host[i] != '/'))
      ==> Parse(line) == Some(w.path)
  {
    hide Parse;
    if
      && line == w.m + w.b1 + (w.scheme + w.host + w.path) + w.b2 + w.v
      && |w.m| == 3 && (forall i :: 0 <= i < 3 ==> w.m[i] == "GET"[i] || w.m[i] == "get"[i])
      && |w.v| == 8 && (forall i :: 0 <= i < 8 ==> w.v[i] == "HTTP/1.1"[i] || w.v[i] == "http/1.1"[i])
      && w.b1 != "" && (forall i :: 0 <= i < |w.b1| ==> w.b1[i] == ' ' || w.b1[i] == '\t')
      && w.b2 != "" && (forall i :: 0 <= i < |w.b2| ==> w.b2[i] == ' ' || w.b2[i] == '\t')
      && w.path != "" && w.path[0] == '/' && (forall i :: 0 <= i < |w.path| ==> w.path[i] != ' ' && w.path[i] != '\t')
      && (if w.scheme == "" then w.host == "" else
            && |w.scheme| == 7 && (forall i :: 0 <= i < 7 ==> w.scheme[i] == "HTTP://"[i] || w.scheme[i] == "http://"[i])
            && (forall i :: 0 <= i < |w.host| ==> w.host[i] != ' ' && w.host[i] != '\t' && w.host[i] != '/'))
    {
      PlainRequestParses(w.m, w.b1, w.scheme, w.host, w.path, w.b2, w.v);
    }
  }

  lemma AcceptedRecord(line: string) returns (r: Printed)
    requires Parse(line).Some?
    ensures Parse(line) == Some(r.path)
    ensures line == r.m + r.b1 + (r.scheme + r.host + r.path) + r.b2 + r.v
    ensures
      && |r.m| == 3 && (forall i :: 0 <= i < 3 ==> r.m[i] == "GET"[i] || r.m[i] == "get"[i])
      && |r.v| == 8 && (forall i :: 0 <= i < 8 ==> r.v[i] == "HTTP/1.1"[i] || r.v[i] == "http/1.1"[i])
      && r.b1 != "" && (forall i :: 0 <= i < |r.b1| ==> r.b1[i] == ' ' || r.b1[i] == '\t')
      && r.b2 != "" && (forall i :: 0 <= i < |r.b2| ==> r.b2[i] == ' ' || r.b2[i] == '\t')
      && r.path != "" && r.path[0] == '/' && (forall i :: 0 <= i < |r.path| ==> r.path[i] != ' ' && r.path[i] != '\t')
      && (if r.scheme == "" then r.host == "" else
            && |r.scheme| == 7 && (forall i :: 0 <= i < 7 ==> r.scheme[i] == "HTTP://"[i] || r.scheme[i] == "http://"[i])
            && (forall i :: 0 <= i < |r.host| ==> r.host[i] != ' ' && r.host[i] != '\t' && r.host[i] != '/'))
  {
    hide Parse;
    var m, b1, scheme, host, path, b2, v := AcceptedIsPlain(line);
    r := Printed(m, b1, scheme, host, path, b2, v);
  }
}

/** thread_pool/http_conn.cc: one connection's receive buffer and its in-place parsing. */
module HttpConn {
  import opened Wrappers
  import opened LineScanner
  import opened RequestLine

  const READ_BUFFER_SIZE := 2048

  datatype CheckState = CheckRequestLine | CheckHeader | CheckContent
  datatype HttpCode = NoRequest | BadRequest

  /** How a series of recv calls on a non-blocking socket ends. */
  datatype Ending = WouldBlock | Failure | Closed

  // ---------- C strings inside a buffer; null pointers are None ----------

  function StrLen(b: seq<char>, p: nat): (n: nat)
    requires p <= |b|
    ensures p + n <= |b|
    ensures forall i :: p <= i < p + n ==> b[i] != '\0'
    ensures p + n < |b| ==> b[p + n] == '\0'
    decreases |b| - p
  {
    if p == |b| || b[p] == '\0' then 0 else 1 + StrLen(b, p + 1)
  }

  function CStr(b: seq<char>, p: nat): string
    requires p <= |b|
  {
    b[p..p + StrLen(b, p)]
  }

  lemma CStrIs(b: seq<char>, p: nat, s: string)
    requires p + |s| < |b| && b[p..p + |s|] == s && '\0' !in s && b[p + |s|] == '\0'
    ensures CStr(b, p) == s
  {
    var n := StrLen(b, p);
    assert forall i :: 0 <= i < |s| ==> b[p + i] == s[i] && s[i] in s;
  }

  /** strpbrk(p, " \t") */
  function Pbrk(b: seq<char>, p: nat): Option<nat>
    requires p <= |b|
  {
    var a := Span(CStr(b, p), false);
    if a == |CStr(b, p)| then None else Some(p + a)
  }

  /** A C string that ends inside the buffer. */
  ghost predicate Terminated(b: seq<char>, p: nat) {
    p <= |b| && p + StrLen(b, p) < |b|
  }

  lemma CutWord(b: seq<char>, p: nat, q: nat)
    requires Terminated(b, p) && Pbrk(b, p) == Some(q)
    ensures p <= q < p + |CStr(b, p)| < |b| && b[q] == CStr(b, p)[q - p] && IsBlank(b[q])
    ensures q - p == Span(CStr(b, p), false)
    ensures CStr(b[q := '\0'], p) == CStr(b, p)[..q - p]
  {
    CStrIs(b[q := '\0'], p, CStr(b, p)[..q - p]);
  }

  lemma CutTail(b: seq<char>, p: nat, q: nat, u: nat)
    requires Terminated(b, p) && p <= q < u <= p + |CStr(b, p)|
    ensures Terminated(b[q := '\0'], u) && CStr(b[q := '\0'], u) == CStr(b, p)[u - p..]
  {
    CStrIs(b[q := '\0'], u, CStr(b, p)[u - p..]);
  }

  /** `*q++ = '\0'; q += strspn(q, " \t")`: writing NUL over the first blank leaves the word
      before it and the rest behind the blanks as two C strings. */
  lemma CutInPlace(b: seq<char>, p: nat, q: nat)
    requires Terminated(b, p) && Pbrk(b, p) == Some(q)
    ensures q < |b| && IsBlank(b[q]) && Cut(CStr(b, p)).Some?
    ensures var (word, rest) := Cut(CStr(b, p)).value;
      var b' := b[q := '\0'];
      && CStr(b', p) == word
      && Terminated(b', q + 1)
      && var u := q + 1 + Span(CStr(b', q + 1), true);
      u <= |b| && Terminated(b', u) && CStr(b', u) == rest
  {
    hide Span, CStr, Pbrk, Terminated;
    CutWord(b, p, q);
    CutTail(b, p, q, q + 1);
    CutTail(b, p, q, q + 1 + Span(CStr(b, p)[q + 1 - p..], true));
  }

  lemma PbrkCut(b: seq<char>, p: nat)
    requires Terminated(b, p)
    ensures Pbrk(b, p).None? <==> Cut(CStr(b, p)).None?
  {
  }

  /** A C string cut short still ends inside the buffer. */
  lemma ShorterTerminated(b: seq<char>, p: nat, b': seq<char>)
    requires Terminated(b, p) && |b'| == |b|
    requires forall i :: 0 <= i < |b| ==> b'[i] == b[i] || b'[i] == '\0'
    ensures Terminated(b', p)
  {
  }

  /** A suffix of a C string is a C string. */
  lemma CStrSuffix(b: seq<char>, p: nat, k: nat)
    requires Terminated(b, p) && k <= |CStr(b, p)|
    ensures Terminated(b, p + k) && CStr(b, p + k) == CStr(b, p)[k..]
  {
    CStrIs(b, p + k, CStr(b, p)[k..]);
  }

  lemma FirstChar(b: seq<char>, p: nat)
    requires Terminated(b, p)
    ensures p < |b| && (b[p] == '/' <==> CStr(b, p) != "" && CStr(b, p)[0] == '/')
  {
  }

  /** What a C string holds of `s`: everything before its first NUL, or all of it. */
  function BeforeNul(s: string): (r: string)
    ensures r <= s
    ensures '\0' !in r && (|r| < |s| ==> s[|r|] == '\0')
    ensures '\0' !in s ==> r == s
  {
    CStr(s, 0)
  }

  /** A line just found is a C string that ends inside the buffer: its text, up to a NUL in it. */
  lemma FoundLine(buf: seq<char>, i: nat, start: nat, behind: seq<char>)
    requires Resumable(buf, i) && start <= i && LineSpec(buf, i).status.LineOk?
    ensures var r := LineSpec(buf, i);
      && start <= r.idx - 2 < |buf|
      && Terminated(r.buf + behind, start)
      && CStr(r.buf + behind, start) == BeforeNul(buf[start..r.idx - 2])
  {
    LineFacts(buf, i);
    var r := LineSpec(buf, i);
    hide LineSpec;
    var b, line := r.buf + behind, buf[start..r.idx - 2];
    var text := BeforeNul(line);
    hide BeforeNul;
    assert b[r.idx - 2] == '\0';
    assert b[start..start + |line|] == line;
    assert b[start..start + |text|] == line[..|text|] == text;
    assert b[start + |text|] == '\0' by {
      assert |text| < |line| ==> line[|text|] == b[start + |text|];
    }
    CStrIs(b, start, text);
  }

  /** Only a finished line changes bytes. */
  lemma ScanLeaves(buf: seq<char>, i: nat)
    requires i <= |buf| && !LineSpec(buf, i).status.LineOk?
    ensures LineSpec(buf, i).buf == buf
  {
  }

  lemma NothingYet()
    ensures Resumable([], 0) && LineSpec([], 0).status.LineOpen? && LineSpec([], 0).idx == 0
    ensures Flatten([]) == []
  {
  }

  /** What arrives behind a decided line, or nothing at all, decides nothing. */
  lemma Unaffected(got: string, rest: string)
    requires Resumable(got, 0) && (rest == [] || !LineSpec(got, 0).status.LineOpen?)
    ensures var r, r' := LineSpec(got, 0), LineSpec(got + rest, 0);
      && r'.status == r.status && r'.idx == r.idx
      && (r.status.LineOk? ==> 2 <= r.idx <= |got| && (got + rest)[..r.idx - 2] == got[..r.idx - 2])
  {
    if LineSpec(got, 0).status.LineOk? {
      LineFacts(got, 0);
    }
    hide LineSpec;
    if rest == [] {
      assert got + rest == got;
    } else {
      LineExtends(got, 0, rest);
    }
  }

  /** A printed request for path `p` is one line, and that line parses to `p`. */
  lemma PrintedRequest(line: string, after: string, p: string)
    requires '\n' !in line && '\0' !in line && Request(line, p)
    ensures var whole := line + "\r\n" + after;
      var r := LineSpec(whole, 0);
      && r.status == LineOk && 2 <= r.idx <= |whole|
      && Parse(BeforeNul(whole[..r.idx - 2])) == Some(p)
  {
    hide LineSpec, Parse, Request;
    FirstPrinted([], line, after);
    assert [] + line + "\r\n" + after == line + "\r\n" + after;
    assert (line + "\r\n" + after)[..|line|] == line;
    ParseIsGrammar(line, p);
  }

  /** In plain characters: the bytes of a printed request are one line, which parses to its path. */
  lemma PlainRequestIsOneLine(m: string, b1: string, scheme: string, host: string, path: string, b2: string, v: string, after: string)
    requires |m| == 3 && forall i :: 0 <= i < 3 ==> m[i] == "GET"[i] || m[i] == "get"[i]
    requires |v| == 8 && forall i :: 0 <= i < 8 ==> v[i] == "HTTP/1.1"[i] || v[i] == "http/1.1"[i]
    requires b1 != "" && forall i :: 0 <= i < |b1| ==> b1[i] == ' ' || b1[i] == '\t'
    requires b2 != "" && forall i :: 0 <= i < |b2| ==> b2[i] == ' ' || b2[i] == '\t'
    requires path != "" && path[0] == '/' && forall i :: 0 <= i < |path| ==> path[i] !in [' ', '\t', '\n', '\0']
    requires if scheme == "" then host == "" else
      && |scheme| == 7 && (forall i :: 0 <= i < 7 ==> scheme[i] == "HTTP://"[i] || scheme[i] == "http://"[i])
      && (forall i :: 0 <= i < |host| ==> host[i] !in [' ', '\t', '\n', '\0', '/'])
    ensures var whole := (m + b1 + (scheme + host + path) + b2 + v) + "\r\n" + after;
      var r := LineSpec(whole, 0);
      && r.status == LineOk && 2 <= r.idx <= |whole|
      && Parse(BeforeNul(whole[..r.idx - 2])) == Some(path)
  {
    hide LineSpec, Parse;
    var line := m + b1 + (scheme + host + path) + b2 + v;
    PlainRequestParses(m, b1, scheme, host, path, b2, v);
    NoneOf(m, b1, scheme, host, path, b2, v);
    FirstPrinted([], line, after);
    assert [] + line + "\r\n" + after == line + "\r\n" + after;
    assert (line + "\r\n" + after)[..|line|] == line;
  }

  lemma NoneOf(m: string, b1: string, scheme: string, host: string, path: string, b2: string, v: string)
    requires forall w :: w in {m, b1, scheme, host, path, b2, v} ==> '\n' !in w && '\0' !in w
    ensures '\n' !in m + b1 + (scheme + host + path) + b2 + v && '\0' !in m + b1 + (scheme + host + path) + b2 + v
  {
  }

  /** Overwriting blanks with NUL does not disturb the scanner. */
  lemma BlanksCutResumable(b: seq<char>, b': seq<char>, i: nat)
    requires Resumable(b, i) && |b'| == |b|
    requires forall k :: 0 <= k < |b| ==> b'[k] == b[k] || (b'[k] == '\0' && IsBlank(b[k]))
    ensures Resumable(b', i)
  {
  }

  class Connection {
    var readBuf: array<char>
    var readIdx: int
    var checkedIdx: int
    var startLine: int
    var checkState: CheckState
    var url: Option<nat>
    var version: Option<nat>

    ghost predicate Valid()
      reads `readBuf, `readIdx, `checkedIdx, `startLine, readBuf
    {
      && readBuf.Length == READ_BUFFER_SIZE
      && 0 <= startLine <= checkedIdx <= readIdx <= READ_BUFFER_SIZE
      && Resumable(readBuf[..readIdx], checkedIdx)
    }

    /** The buffer is there; everything else waits for `Init`. */
    constructor ()
      ensures fresh(readBuf) && readBuf.Length == READ_BUFFER_SIZE
    {
      readBuf := new char[READ_BUFFER_SIZE];
    }

    /** init(): ready for the next request, whatever the fields held. */
    method Init()
      requires readBuf.Length == READ_BUFFER_SIZE
      modifies this, readBuf
      ensures Valid() && readBuf == old(readBuf)
      ensures readIdx == checkedIdx == startLine == 0 && checkState == CheckRequestLine
      ensures url.None? && version.None? && forall i :: 0 <= i < READ_BUFFER_SIZE ==> readBuf[i] == '\0'
    {
      checkState, url, version := CheckRequestLine, None, None;
      startLine, checkedIdx, readIdx := 0, 0, 0;
      forall i | 0 <= i < readBuf.Length {
        readBuf[i] := '\0';
      }
    }

    /** Scans on from `checkedIdx`: the first LF decides. */
    method ParseLine() returns (status: LineStatus)
      requires Valid()
      modifies this`checkedIdx, readBuf
      ensures Valid()
      ensures Scan(status, checkedIdx, readBuf[..readIdx]) == LineSpec(old(readBuf[..readIdx]), old(checkedIdx))
      ensures readBuf[readIdx..] == old(readBuf[readIdx..])
      ensures var b, i := old(readBuf[..readIdx]), old(checkedIdx);
        && (status == LineOpen ==>
              && (forall k :: i <= k < |b| ==> b[k] != '\n')
              && checkedIdx == (if i < |b| && b[|b| - 1] == '\r' then |b| - 1 else |b|)
              && readBuf[..readIdx] == b)
        && (status == LineBad ==>
              && i <= checkedIdx < |b| && b[checkedIdx] == '\n' && (forall k :: i <= k < checkedIdx ==> b[k] != '\n')
              && (checkedIdx > i ==> b[checkedIdx - 1] != '\r')
              && readBuf[..readIdx] == b)
        && (status == LineOk ==>
              && i + 2 <= checkedIdx <= |b| && b[checkedIdx - 1] == '\n' && b[checkedIdx - 2] == '\r'
              && (forall k :: i <= k < checkedIdx - 1 ==> b[k] != '\n')
              && readBuf[..readIdx] == b[..checkedIdx - 2] + ['\0', '\0'] + b[checkedIdx..])
    {
      hide LineSpec;
      LineSpecPlain(readBuf[..readIdx], checkedIdx);
      status := ScanOn();
    }

    /** The loop of parse_line. */
    method ScanOn() returns (status: LineStatus)
      requires Valid()
      modifies this`checkedIdx, readBuf
      ensures Valid()
      ensures Scan(status, checkedIdx, readBuf[..readIdx]) == LineSpec(old(readBuf[..readIdx]), old(checkedIdx))
      ensures readBuf[readIdx..] == old(readBuf[readIdx..])
    {
      hide LineSpec;
      ghost var buf, start := readBuf[..readIdx], checkedIdx;
      ScanMeets(buf, start);
      while checkedIdx < readIdx
        invariant start <= checkedIdx <= readIdx
        invariant readBuf[..] == old(readBuf[..])
        invariant ScanFrom(buf, checkedIdx) == ScanFrom(buf, start)
      {
        var temp := readBuf[checkedIdx];
        if temp == '\r' {
          if checkedIdx + 1 == readIdx {
            return LineOpen;
          } else if readBuf[checkedIdx + 1] == '\n' {
            EndLine(checkedIdx);
            return LineOk;
          }
        } else if temp == '\n' {
          if checkedIdx > 1 && readBuf[checkedIdx - 1] == '\r' {
            EndLine(checkedIdx - 1);
            return LineOk;
          }
          return LineBad;
        }
        checkedIdx := checkedIdx + 1;
      }
      return LineOpen;
    }

    /** Zeroes the CR and LF at `at` and moves behind them. */
    method EndLine(at: int)
      requires 0 <= at && at + 1 < readIdx <= readBuf.Length
      modifies this`checkedIdx, readBuf
      ensures readBuf[..readIdx] == old(readBuf[..readIdx])[at := '\0'][at + 1 := '\0']
      ensures readBuf[readIdx..] == old(readBuf[readIdx..]) && checkedIdx == at + 2
    {
      readBuf[at] := '\0';
      readBuf[at + 1] := '\0';
      checkedIdx := at + 2;
    }

    /** Receives until recv fails or returns nothing. `pending` are the bytes the kernel hands
        over before `ending`; a full buffer asks for zero bytes and so gets none. */
    method Read(pending: string, ending: Ending) returns (ok: bool)
      requires Valid()
      modifies this`readIdx, readBuf
      ensures readBuf == old(readBuf) && Valid()
      ensures old(readIdx) <= readIdx && old(readBuf[..readIdx]) <= readBuf[..readIdx]
      ensures readBuf[old(readIdx)..readIdx] <= pending
      ensures ok <==> ending.WouldBlock? && old(readIdx) + |pending| < READ_BUFFER_SIZE
      ensures ok ==> readBuf[..readIdx] == old(readBuf[..readIdx]) + pending
      ensures ending.WouldBlock? && old(readIdx) + |pending| < 2048 ==> ok
    {
      if readIdx >= READ_BUFFER_SIZE {
        return false;
      }
      var taken := 0;
      ghost var before := readBuf[..readIdx];
      while true
        invariant 0 <= taken <= |pending| && readIdx == old(readIdx) + taken <= READ_BUFFER_SIZE
        invariant readBuf[..readIdx] == before + pending[..taken]
        decreases |pending| - taken
      {
        var room := READ_BUFFER_SIZE - readIdx;
        if room == 0 {
          ResumableExtends(before, checkedIdx, pending[..taken]);
          return false; // recv returned 0
        }
        if taken == |pending| {
          ResumableExtends(before, checkedIdx, pending[..taken]);
          return ending.WouldBlock?;
        }
        var bytesRead: int :| 1 <= bytesRead <= room && bytesRead <= |pending| - taken;
        Append(pending[taken..taken + bytesRead]);
        assert pending[..taken + bytesRead] == pending[..taken] + pending[taken..taken + bytesRead];
        taken := taken + bytesRead;
      }
    }

    /** One successful recv. */
    method Append(bytes: string)
      requires 0 <= readIdx && readIdx + |bytes| <= readBuf.Length
      modifies this`readIdx, readBuf
      ensures readIdx == old(readIdx) + |bytes|
      ensures readBuf[..readIdx] == old(readBuf[..readIdx]) + bytes
    {
      forall i | 0 <= i < |bytes| {
        readBuf[readIdx + i] := bytes[i];
      }
      readIdx := readIdx + |bytes|;
    }

    /** Skips http:// and the host, if any; null unless a path is found. */
    method FindPath(p: nat) returns (path: Option<nat>)
      requires Terminated(readBuf[..], p)
      ensures path.Some? <==> PathOf(CStr(readBuf[..], p)).Some?
      ensures path.Some? ==>
        Terminated(readBuf[..], path.value) && CStr(readBuf[..], path.value) == PathOf(CStr(readBuf[..], p)).value
    {
      hide StrLen, CStr, Find, SameIgnoringCase;
      var target := CStr(readBuf[..], p);
      path := Some(p);
      if |target| >= 7 && SameIgnoringCase(target[..7], "http://") {
        var slash := Find(target[7..], '/');
        if slash == |target| - 7 {
          return None;
        }
        path := Some(p + 7 + slash);
        CStrSuffix(readBuf[..], p, 7 + slash);
        assert target[7 + slash..][0] == target[7..][slash];
      }
      FirstChar(readBuf[..], path.value);
      if readBuf[path.value] != '/' {
        return None;
      }
    }

    /** Bytes change only from a blank to NUL. */
    twostate predicate OnlyBlanksCut()
      reads this, readBuf
    {
      && readBuf == old(readBuf)
      && forall i :: 0 <= i < readBuf.Length ==>
           readBuf[i] == old(readBuf[i]) || (readBuf[i] == '\0' && IsBlank(old(readBuf[i])))
    }

    /** Bytes that were only cut at blanks leave the connection valid. */
    twostate lemma StaysValid()
      requires OnlyBlanksCut()
      requires readIdx == old(readIdx) && checkedIdx == old(checkedIdx) && startLine == old(startLine)
      ensures old(Valid()) ==> Valid()
    {
      if old(Valid()) {
        BlanksCutResumable(old(readBuf[..readIdx]), readBuf[..readIdx], checkedIdx);
      }
    }

    /** `*q = '\0'` over a blank. */
    method CutAt(q: nat)
      requires q < readBuf.Length && IsBlank(readBuf[q])
      modifies readBuf
      ensures readBuf[..] == old(readBuf[..])[q := '\0'] && OnlyBlanksCut()
      ensures old(Valid()) ==> Valid()
    {
      hide Valid, Resumable;
      readBuf[q] := '\0';
      StaysValid();
    }

    /** Parses the request line from its target on. */
    method ParseTarget(p: nat) returns (ok: bool)
      requires Terminated(readBuf[..], p)
      modifies this`url, this`version, readBuf
      ensures ok <==>
        var cut := Cut(CStr(old(readBuf[..]), p));
        cut.Some? && SameIgnoringCase(cut.value.1, "HTTP/1.1") && PathOf(cut.value.0).Some?
      ensures ok ==>
        && url.Some? && Terminated(readBuf[..], url.value)
        && CStr(readBuf[..], url.value) == PathOf(Cut(CStr(old(readBuf[..]), p)).value.0).value
      ensures OnlyBlanksCut()
      ensures old(Valid()) ==> Valid()
    {
      hide Valid, Span, Find, StrLen, CStr, Cut, SameIgnoringCase, PathOf;
      url := Some(p);
      version := Pbrk(readBuf[..], p);
      if version.None? {
        PbrkCut(readBuf[..], p);
        return false;
      }
      CutInPlace(readBuf[..], p, version.value);
      CutAt(version.value);
      version := Some(version.value + 1);
      version := Some(version.value + Span(CStr(readBuf[..], version.value), true));
      if !SameIgnoringCase(CStr(readBuf[..], version.value), "HTTP/1.1") {
        return false;
      }
      ShorterTerminated(old(readBuf[..]), p, readBuf[..]);
      url := FindPath(p);
      return url.Some?;
    }

    /** Parses the request line whose C string starts at `text`: a finished line, so its
        terminating NUL lies inside the buffer. */
    method ParseRequestLine(text: nat) returns (code: HttpCode)
      requires Terminated(readBuf[..], text)
      modifies this`url, this`version, this`checkState, readBuf
      ensures code == NoRequest <==> Parse(CStr(old(readBuf[..]), text)).Some?
      ensures code == NoRequest ==>
        && checkState == CheckHeader
        && url.Some? && Terminated(readBuf[..], url.value)
        && CStr(readBuf[..], url.value) == Parse(CStr(old(readBuf[..]), text)).value
      ensures code == BadRequest ==> checkState == old(checkState)
      ensures OnlyBlanksCut()
      ensures old(Valid()) ==> Valid()
    {
      hide Valid, Resumable, Span, Find, StrLen, CStr, Cut, Split, Parse, SameIgnoringCase, PathOf, Pbrk;
      ParseCuts(CStr(readBuf[..], text));
      url := Pbrk(readBuf[..], text);
      if url.None? {
        PbrkCut(readBuf[..], text);
        return BadRequest;
      }
      CutInPlace(readBuf[..], text, url.value);
      CutAt(url.value);
      url := Some(url.value + 1);
      if !SameIgnoringCase(CStr(readBuf[..], text), "GET") {
        return BadRequest;
      }
      url := Some(url.value + Span(CStr(readBuf[..], url.value), true));
      var ok := ParseTarget(url.value);
      if !ok {
        return BadRequest;
      }
      checkState := CheckHeader;
      return NoRequest;
    }
  
    /** parse_request_line in plain characters. Any C string that is printed as `w` says is accepted
        with its path; and any that is accepted is printed as `r` says, with the path answered. */
    method AnswerInPlain(text: nat, ghost w: Printed) returns (code: HttpCode, ghost r: Printed)
      requires Terminated(readBuf[..], text)
      modifies this`url, this`version, this`checkState, readBuf
      ensures
        && CStr(old(readBuf[..]), text) == w.m + w.b1 + (w.scheme + w.host + w.path) + w.b2 + w.v
        && |w.m| == 3 && (forall i :: 0 <= i < 3 ==> w.m[i] == "GET"[i] || w.m[i] == "get"[i])
        && |w.v| == 8 && (forall i :: 0 <= i < 8 ==> w.v[i] == "HTTP/1.1"[i] || w.v[i] == "http/1.1"[i])
        && w.b1 != "" && (forall i :: 0 <= i < |w.b1| ==> w.b1[i] == ' ' || w.b1[i] == '\t')
        && w.b2 != "" && (forall i :: 0 <= i < |w.b2| ==> w.b2[i] == ' ' || w.b2[i] == '\t')
        && w.path != "" && w.path[0] == '/' && (forall i :: 0 <= i < |w.path| ==> w.path[i] != ' ' && w.path[i] != '\t')
        && (if w.scheme == "" then w.host == "" else
              && |w.scheme| == 7 && (forall i :: 0 <= i < 7 ==> w.scheme[i] == "HTTP://"[i] || w.scheme[i] == "http://"[i])
              && (forall i :: 0 <= i < |w.host| ==> w.host[i] != ' ' && w.host[i] != '\t' && w.host[i] != '/'))
        ==> code == NoRequest && url.Some? && Terminated(readBuf[..], url.value) && CStr(readBuf[..], url.value) == w.path
      ensures code == NoRequest ==>
        && url.Some? && Terminated(readBuf[..], url.value) && CStr(readBuf[..], url.value) == r.path
        && CStr(old(readBuf[..]), text) == r.m + r.b1 + (r.scheme + r.host + r.path) + r.b2 + r.v
        && |r.m| == 3 && (forall i :: 0 <= i < 3 ==> r.m[i] == "GET"[i] || r.m[i] == "get"[i])
        && |r.v| == 8 && (forall i :: 0 <= i < 8 ==> r.v[i] == "HTTP/1.1"[i] || r.v[i] == "http/1.1"[i])
        && r.b1 != "" && (forall i :: 0 <= i < |r.b1| ==> r.b1[i] == ' ' || r.b1[i] == '\t')
        && r.b2 != "" && (forall i :: 0 <= i < |r.b2| ==> r.b2[i] == ' ' || r.b2[i] == '\t')
        && r.path != "" && r.path[0] == '/' && (forall i :: 0 <= i < |r.path| ==> r.path[i] != ' ' && r.path[i] != '\t')
        && (if r.scheme == "" then r.host == "" else
              && |r.scheme| == 7 && (forall i :: 0 <= i < 7 ==> r.scheme[i] == "HTTP://"[i] || r.scheme[i] == "http://"[i])
              && (forall i :: 0 <= i < |r.host| ==> r.host[i] != ' ' && r.host[i] != '\t' && r.host[i] != '/'))
    {
      hide StrLen, CStr, Parse, OnlyBlanksCut;
      ghost var line := CStr(readBuf[..], text);
      PrintedRecord(line, w);
      r := w;
      if Parse(line).Some? {
        r := AcceptedRecord(line);
      }
      code := ParseRequestLine(text);
    }

    /** Scans for the request line and, once it is there, parses it: `get_line`, the move of
        `m_start_line` and parse_request_line. */
    method TakeRequestLine() returns (status: LineStatus, code: HttpCode)
      requires Valid() && checkState == CheckRequestLine
      modifies this`checkedIdx, this`startLine, this`url, this`version, this`checkState, readBuf
      ensures Valid()
      ensures var r := LineSpec(old(readBuf[..readIdx]), old(checkedIdx));
        && status == r.status && checkedIdx == r.idx
        && (status != LineOk ==>
              readBuf[..] == old(readBuf[..]) && startLine == old(startLine) && url == old(url)
              && version == old(version) && checkState == CheckRequestLine)
        && (status == LineOk ==>
              && startLine == checkedIdx
              && old(startLine) <= r.idx - 2 <= readIdx
              && Accepts(code, old(readBuf[..readIdx])[old(startLine)..r.idx - 2]))
      ensures status == LineOk ==>
        && old(startLine) <= checkedIdx - 2 <= readIdx
        && var path := Parse(BeforeNul(old(readBuf[..readIdx])[old(startLine)..checkedIdx - 2]));
        && (code == NoRequest <==> path.Some?)
        && (code == NoRequest ==>
              && checkState == CheckHeader
              && url.Some? && Terminated(readBuf[..], url.value) && CStr(readBuf[..], url.value) == path.value)
    {
      hide LineSpec, BeforeNul, CStr, Terminated, Parse;
      ghost var buf, behind, i := readBuf[..readIdx], readBuf[readIdx..], checkedIdx;
      status := ParseLine();
      code := NoRequest;
      if status != LineOk {
        ScanLeaves(buf, i);
        assert readBuf[..] == readBuf[..readIdx] + readBuf[readIdx..];
        assert old(readBuf[..]) == buf + behind;
        return;
      }
      FoundLine(buf, i, startLine, behind);
      assert readBuf[..] == LineSpec(buf, i).buf + behind;
      var text := startLine;
      startLine := checkedIdx;
      code := ParseRequestLine(text);
    }

    /** `code` is the right answer to `line`, and `m_url` then is its path. */
    ghost predicate Accepts(code: HttpCode, line: string)
      reads this, readBuf
    {
      && (code == NoRequest <==> Parse(BeforeNul(line)).Some?)
      && (code == NoRequest ==>
            && checkState == CheckHeader
            && url.Some? && Terminated(readBuf[..], url.value)
            && Some(CStr(readBuf[..], url.value)) == Parse(BeforeNul(line)))
    }
  
    /** A whole request line, from init() on: its bytes arrive in chunks, and after each of them
        the scanner goes on, until the line is there. `ok` is false when the buffer fills up. */
    method ReadRequest(chunks: seq<string>) returns (ok: bool, status: LineStatus, code: HttpCode)
      requires readBuf.Length == READ_BUFFER_SIZE
      modifies this, readBuf
      ensures |Flatten(chunks)| < 2048 ==> ok
      ensures ok ==> Valid()
      ensures ok ==>
        var r := LineSpec(Flatten(chunks), 0);
        && status == r.status
        && (status == LineOk ==>
              2 <= r.idx <= |Flatten(chunks)| && Accepts(code, Flatten(chunks)[..r.idx - 2]))
      ensures ok && status == LineOk ==>
        var r := LineSpec(Flatten(chunks), 0);
        && 2 <= r.idx <= |Flatten(chunks)|
        && var path := Parse(BeforeNul(Flatten(chunks)[..r.idx - 2]));
        && (code == NoRequest <==> path.Some?)
        && (code == NoRequest ==>
              url.Some? && Terminated(readBuf[..], url.value) && CStr(readBuf[..], url.value) == path.value)
    {
      hide LineSpec, Parse, BeforeNul, Flatten, Resumable;
      Init();
      ok, status, code := true, LineOpen, NoRequest;
      var k := 0;
      ghost var got: string := [];
      NothingYet();
      while k < |chunks| && status == LineOpen
        invariant k <= |chunks| && readBuf.Length == READ_BUFFER_SIZE && readBuf == old(readBuf) && Valid()
        invariant got == Flatten(chunks[..k]) && Resumable(got, 0) && LineSpec(got, 0).status == status
        invariant status == LineOpen ==>
          readBuf[..readIdx] == got && startLine == 0 && checkState == CheckRequestLine && checkedIdx == LineSpec(got, 0).idx
        invariant status == LineOk ==>
          2 <= LineSpec(got, 0).idx <= |got| && Accepts(code, got[..LineSpec(got, 0).idx - 2])
      {
        FlattenOn(chunks, k);
        ok := Read(chunks[k], WouldBlock);
        if !ok {
          return;
        }
        OpenResumes(got, 0, chunks[k]);
        ResumableExtends(got, 0, chunks[k]);
        got := got + chunks[k];
        status, code := TakeRequestLine();
        k := k + 1;
      }
      FlattenSplits(chunks, k);
      assert k == |chunks| ==> chunks[k..] == [];
      Unaffected(got, Flatten(chunks[k..]));
    }

    /** From the network to the path, in plain characters: a printed request that fits the buffer
        is accepted with exactly its path, however its bytes are cut into chunks and whatever
        follows it. */
    method ReadPrinted(chunks: seq<string>, ghost m: string, ghost b1: string, ghost scheme: string, ghost host: string,
                       ghost path: string, ghost b2: string, ghost v: string, ghost after: string)
      returns (ok: bool, status: LineStatus, code: HttpCode)
      requires readBuf.Length == READ_BUFFER_SIZE
      requires Flatten(chunks) == (m + b1 + (scheme + host + path) + b2 + v) + "\r\n" + after && |Flatten(chunks)| < 2048
      requires |m| == 3 && forall i :: 0 <= i < 3 ==> m[i] == "GET"[i] || m[i] == "get"[i]
      requires |v| == 8 && forall i :: 0 <= i < 8 ==> v[i] == "HTTP/1.1"[i] || v[i] == "http/1.1"[i]
      requires b1 != "" && forall i :: 0 <= i < |b1| ==> b1[i] == ' ' || b1[i] == '\t'
      requires b2 != "" && forall i :: 0 <= i < |b2| ==> b2[i] == ' ' || b2[i] == '\t'
      requires path != "" && path[0] == '/' && forall i :: 0 <= i < |path| ==> path[i] !in [' ', '\t', '\n', '\0']
      requires if scheme == "" then host == "" else
        && |scheme| == 7 && (forall i :: 0 <= i < 7 ==> scheme[i] == "HTTP://"[i] || scheme[i] == "http://"[i])
        && (forall i :: 0 <= i < |host| ==> host[i] !in [' ', '\t', '\n', '\0', '/'])
      modifies this, readBuf
      ensures ok && status == LineOk && code == NoRequest && Valid()
      ensures url.Some? && Terminated(readBuf[..], url.value) && CStr(readBuf[..], url.value) == path
    {
      hide LineSpec, Parse, BeforeNul, Flatten, Resumable;
      PlainRequestIsOneLine(m, b1, scheme, host, path, b2, v, after);
      ok, status, code := ReadRequest(chunks);
    }
  }
}

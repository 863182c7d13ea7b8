/**
 Splitting a byte stream into CRLF lines (section 3.5 of RFC 7230), as `http_conn::parse_line`
 of thread_pool/http_conn.cc does it: in place, resumable, over the bytes received so far.
 */
module LineScanner {

  datatype LineStatus = LineOk | LineBad | LineOpen

  /** What one call leaves: its status, `m_checked_idx`, and the bytes. */
  datatype Scan = Scan(status: LineStatus, idx: nat, buf: seq<char>)

  /** The calls from index `i` on, branch by branch. */
  function ScanFrom(buf: seq<char>, i: nat): (r: Scan)
    requires i <= |buf|
    ensures i <= r.idx <= |r.buf| == |buf|
    decreases |buf| - i
  {
    if i == |buf| then Scan(LineOpen, i, buf)
    else if buf[i] == '\r' then
      if i + 1 == |buf| then Scan(LineOpen, i, buf)
      else if buf[i + 1] == '\n' then Scan(LineOk, i + 2, buf[i := '\0'][i + 1 := '\0'])
      else ScanFrom(buf, i + 1)
    else if buf[i] == '\n' then
      if i > 1 && buf[i - 1] == '\r' then Scan(LineOk, i + 1, buf[i - 1 := '\0'][i := '\0'])
      else Scan(LineBad, i, buf)
    else ScanFrom(buf, i + 1)
  }

  /** The position of the first LF at or after `i`, or the end. */
  ghost function FirstLF(buf: seq<char>, i: nat): (n: nat)
    requires i <= |buf|
    ensures i <= n <= |buf|
    ensures forall k :: i <= k < n ==> buf[k] != '\n'
    ensures n < |buf| ==> buf[n] == '\n'
    decreases |buf| - i
  {
    if i == |buf| || buf[i] == '\n' then i else FirstLF(buf, i + 1)
  }

  lemma {:induction false} FirstLFIs(buf: seq<char>, i: nat, n: nat)
    requires i <= n <= |buf|
    requires forall k :: i <= k < n ==> buf[k] != '\n'
    requires n < |buf| ==> buf[n] == '\n'
    ensures FirstLF(buf, i) == n
    decreases n - i
  {
    if i < n {
      FirstLFIs(buf, i + 1, n);
    }
  }

  /** Scanning never resumes between a CR and its LF. */
  ghost predicate Resumable(buf: seq<char>, i: nat) {
    i <= |buf| && !(i > 0 && buf[i - 1] == '\r' && (i == |buf| || buf[i] == '\n'))
  }

  /** What a call means: the first LF decides. */
  ghost function LineSpec(buf: seq<char>, i: nat): Scan
    requires i <= |buf|
  {
    var n := FirstLF(buf, i);
    if n == |buf| then
      Scan(LineOpen, if i < n && buf[n - 1] == '\r' then n - 1 else n, buf)
    else if n > i && buf[n - 1] == '\r' then
      Scan(LineOk, n + 1, buf[n - 1 := '\0'][n := '\0'])
    else
      Scan(LineBad, n, buf)
  }

  /** From any place where scanning may resume, the branches compute that meaning; the
      look-behind at lines 119-124 never succeeds. */
  lemma {:induction false} ScanMeets(buf: seq<char>, i: nat)
    requires Resumable(buf, i)
    ensures ScanFrom(buf, i) == LineSpec(buf, i)
    ensures Resumable(ScanFrom(buf, i).buf, ScanFrom(buf, i).idx)
    decreases |buf| - i
  {
    if i < |buf| && buf[i] != '\n' && !(buf[i] == '\r' && (i + 1 == |buf| || buf[i + 1] == '\n')) {
      ScanMeets(buf, i + 1);
    } else if i + 1 < |buf| && buf[i] == '\r' && buf[i + 1] == '\n' {
      FirstLFIs(buf, i, i + 1);
    }
  }

  /** The same meaning, byte by byte. */
  lemma LineSpecPlain(buf: seq<char>, i: nat)
    requires i <= |buf|
    ensures var r := LineSpec(buf, i);
      && (r.status == LineOpen ==>
            && (forall k :: i <= k < |buf| ==> buf[k] != '\n')
            && r.idx == (if i < |buf| && buf[|buf| - 1] == '\r' then |buf| - 1 else |buf|)
            && r.buf == buf)
      && (r.status == LineBad ==>
            && i <= r.idx < |buf| && buf[r.idx] == '\n' && (forall k :: i <= k < r.idx ==> buf[k] != '\n')
            && (r.idx > i ==> buf[r.idx - 1] != '\r')
            && r.buf == buf)
      && (r.status == LineOk ==>
            && i + 2 <= r.idx <= |buf| && buf[r.idx - 1] == '\n' && buf[r.idx - 2] == '\r'
            && (forall k :: i <= k < r.idx - 1 ==> buf[k] != '\n')
            && r.buf == buf[..r.idx - 2] + ['\0', '\0'] + buf[r.idx..])
  {
  }

  /** A call from `i` ends in the look-behind branch. */
  ghost predicate LooksBehind(buf: seq<char>, i: nat)
    requires i <= |buf|
    decreases |buf| - i
  {
    i < |buf| &&
    if buf[i] == '\r' then i + 1 < |buf| && buf[i + 1] != '\n' && LooksBehind(buf, i + 1)
    else if buf[i] == '\n' then i > 1 && buf[i - 1] == '\r'
    else LooksBehind(buf, i + 1)
  }

  lemma {:induction false} LookBehindUnreachable(buf: seq<char>, i: nat)
    requires Resumable(buf, i)
    ensures !LooksBehind(buf, i)
    decreases |buf| - i
  {
    if i < |buf| && buf[i] != '\n' && !(buf[i] == '\r' && (i + 1 == |buf| || buf[i + 1] == '\n')) {
      LookBehindUnreachable(buf, i + 1);
    }
  }

  // ---------- chunks ----------

  /** A call that found no line leaves the bytes alone, and resuming after more bytes is the
      same as one call on the whole. */
  lemma OpenResumes(buf: seq<char>, i: nat, more: seq<char>)
    requires Resumable(buf, i) && LineSpec(buf, i).status.LineOpen?
    ensures LineSpec(buf, i).buf == buf
    ensures Resumable(buf + more, LineSpec(buf, i).idx)
    ensures LineSpec(buf + more, LineSpec(buf, i).idx) == LineSpec(buf + more, i)
  {
    var j, all := LineSpec(buf, i).idx, buf + more;
    var n := FirstLF(all, j);
    assert forall k :: i <= k < |buf| ==> all[k] == buf[k];
    FirstLFIs(all, i, n);
  }

  /** A call that found the end of a line does not depend on the bytes behind it. */
  lemma LineExtends(buf: seq<char>, i: nat, more: seq<char>)
    requires Resumable(buf, i) && !LineSpec(buf, i).status.LineOpen?
    ensures Resumable(buf + more, i)
    ensures var r, r' := LineSpec(buf, i), LineSpec(buf + more, i);
      r'.status == r.status && r'.idx == r.idx && r'.buf == r.buf + more
    ensures LineSpec(buf, i).status.LineBad? ==>
      LineSpec(buf, i).buf == buf && LineSpec(buf + more, LineSpec(buf, i).idx) == LineSpec(buf + more, i)
  {
    var all, n := buf + more, FirstLF(buf, i);
    assert forall k :: 0 <= k < |buf| ==> all[k] == buf[k];
    FirstLFIs(all, i, n);
  }

  /** The lines found so far and where the scanner stands. */
  datatype Drained = Drained(lines: seq<string>, status: LineStatus, idx: nat, start: nat, buf: seq<char>)

  /** Calls parse_line until it finds no further line; `start` is `m_start_line`. */
  ghost function Drain(buf: seq<char>, i: nat, start: nat): (d: Drained)
    requires Resumable(buf, i) && start <= i
    ensures !d.status.LineOk? && Resumable(d.buf, d.idx) && d.start <= d.idx && |d.buf| == |buf|
    decreases |buf| - i
  {
    ScanMeets(buf, i);
    var r := LineSpec(buf, i);
    if r.status.LineOk? then
      var rest := Drain(r.buf, r.idx, r.idx);
      rest.(lines := [buf[start..r.idx - 2]] + rest.lines)
    else Drained([], r.status, r.idx, start, r.buf)
  }

  /** The drain of one scanned piece `r`, with the text of its line, unfolded once. */
  lemma DrainUnfolds(buf: seq<char>, i: nat, start: nat)
    requires Resumable(buf, i) && start <= i
    ensures var r, d := LineSpec(buf, i), Drain(buf, i, start);
      && Resumable(r.buf, r.idx)
      && (r.status.LineOk? ==>
            && i < r.idx && start <= r.idx - 2 < |buf| && |r.buf| == |buf|
            && d == var e := Drain(r.buf, r.idx, r.idx); e.(lines := [buf[start..r.idx - 2]] + e.lines))
      && (!r.status.LineOk? ==> start <= r.idx && d == Drained([], r.status, r.idx, start, r.buf))
  {
    ScanMeets(buf, i);
  }

  lemma {:induction false} DrainExtends(buf: seq<char>, i: nat, start: nat, more: seq<char>)
    requires Resumable(buf, i) && start <= i
    ensures var d := Drain(buf, i, start);
      && Resumable(buf + more, i) && Resumable(d.buf + more, d.idx)
      && Drain(buf + more, i, start) ==
           var e := Drain(d.buf + more, d.idx, d.start); e.(lines := d.lines + e.lines)
    decreases |buf| - i
  {
    hide LineSpec, Drain;
    var r := LineSpec(buf, i);
    DrainUnfolds(buf, i, start);
    if r.status.LineOpen? {
      OpenResumes(buf, i, more);
      DrainRestarts(buf + more, i, r.idx, start);
    } else {
      LineExtends(buf, i, more);
      if r.status.LineOk? {
        DrainExtends(r.buf, r.idx, r.idx, more);
        DrainUnfolds(buf + more, i, start);
        assert (buf + more)[start..r.idx - 2] == buf[start..r.idx - 2];
      } else {
        DrainUnfolds(buf + more, i, start);
        DrainRestarts(buf + more, i, r.idx, start);
      }
    }
  }

  /** Two places from which the next call is the same. */
  lemma DrainRestarts(buf: seq<char>, i: nat, j: nat, start: nat)
    requires Resumable(buf, i) && Resumable(buf, j) && start <= i && start <= j
    requires LineSpec(buf, i) == LineSpec(buf, j)
    ensures Drain(buf, i, start) == Drain(buf, j, start)
    ensures Drain(buf, i, start) == Drain(buf, j, start).(lines := [] + Drain(buf, j, start).lines)
  {
    hide LineSpec, Drain;
    DrainUnfolds(buf, i, start);
    DrainUnfolds(buf, j, start);
    assert [] + Drain(buf, j, start).lines == Drain(buf, j, start).lines;
  }

  /** Bytes arrive in chunks; after each, the lines found so far are taken. */
  ghost function Feed(d: Drained, chunks: seq<string>): (r: Drained)
    requires Resumable(d.buf, d.idx) && d.start <= d.idx
    ensures Resumable(r.buf, r.idx) && r.start <= r.idx
    decreases |chunks|
  {
    if chunks == [] then d
    else
      ResumableExtends(d.buf, d.idx, chunks[0]);
      var e := Drain(d.buf + chunks[0], d.idx, d.start);
      Feed(e.(lines := d.lines + e.lines), chunks[1..])
  }

  ghost function Flatten(chunks: seq<string>): string {
    if chunks == [] then [] else chunks[0] + Flatten(chunks[1..])
  }

  lemma {:induction false} FlattenSplits(chunks: seq<string>, k: nat)
    requires k <= |chunks|
    ensures Flatten(chunks) == Flatten(chunks[..k]) + Flatten(chunks[k..])
    decreases k
  {
    if k > 0 {
      FlattenSplits(chunks[1..], k - 1);
      assert chunks[..k][1..] == chunks[1..][..k - 1] && chunks[1..][k - 1..] == chunks[k..];
    }
  }

  /** What has arrived after one more chunk. */
  lemma FlattenOn(chunks: seq<string>, k: nat)
    requires k < |chunks|
    ensures Flatten(chunks[..k + 1]) == Flatten(chunks[..k]) + chunks[k]
    ensures |Flatten(chunks[..k])| + |chunks[k]| <= |Flatten(chunks)|
  {
    FlattenSplits(chunks[..k + 1], k);
    assert chunks[..k + 1][..k] == chunks[..k] && chunks[..k + 1][k..] == [chunks[k]];
    assert Flatten([chunks[k]]) == chunks[k] + Flatten([]);
    FlattenSplits(chunks, k + 1);
  }

  lemma ResumableExtends(buf: seq<char>, i: nat, more: seq<char>)
    requires Resumable(buf, i)
    ensures Resumable(buf + more, i)
  {
  }

  /** Main result: however the bytes are cut into chunks, the lines, the final status, the
      scan position and the bytes are those of one drain of the whole input. */
  lemma {:induction false} FeedIsDrain(d: Drained, chunks: seq<string>)
    requires Resumable(d.buf, d.idx) && d.start <= d.idx && chunks != []
    ensures Resumable(d.buf + Flatten(chunks), d.idx)
    ensures Feed(d, chunks) ==
      var e := Drain(d.buf + Flatten(chunks), d.idx, d.start); e.(lines := d.lines + e.lines)
    decreases |chunks|
  {
    hide Drain;
    ResumableExtends(d.buf, d.idx, chunks[0]);
    ResumableExtends(d.buf, d.idx, Flatten(chunks));
    var rest := Flatten(chunks[1..]);
    assert d.buf + Flatten(chunks) == (d.buf + chunks[0]) + rest;
    var e := Drain(d.buf + chunks[0], d.idx, d.start);
    if chunks[1..] != [] {
      FeedIsDrain(e.(lines := d.lines + e.lines), chunks[1..]);
      DrainExtends(d.buf + chunks[0], d.idx, d.start, rest);
      var f := Drain(e.buf + rest, e.idx, e.start);
      assert (d.lines + e.lines) + f.lines == d.lines + (e.lines + f.lines);
    } else {
      assert (d.buf + chunks[0]) + rest == d.buf + chunks[0];
    }
  }

  // ---------- printed lines ----------

  ghost function Printed(lines: seq<string>): string {
    if lines == [] then [] else lines[0] + "\r\n" + Printed(lines[1..])
  }

  /** The bytes around the end of a line that was found. */
  lemma LineFacts(buf: seq<char>, i: nat)
    requires Resumable(buf, i) && LineSpec(buf, i).status.LineOk?
    ensures var r := LineSpec(buf, i);
      && i + 2 <= r.idx <= |buf| == |r.buf| && buf[r.idx - 2] == '\r' && buf[r.idx - 1] == '\n'
      && r.buf == buf[..r.idx - 2] + "\0\0" + buf[r.idx..]
  {
    var r := LineSpec(buf, i);
    assert r.buf == buf[..r.idx - 2] + "\0\0" + buf[r.idx..];
  }

  lemma AroundLine(buf: seq<char>, i: nat, start: nat)
    requires Resumable(buf, i) && start <= i && LineSpec(buf, i).status.LineOk?
    ensures var r := LineSpec(buf, i);
      && start <= r.idx - 2 <= r.idx <= |buf| == |r.buf|
      && r.buf[r.idx..] == buf[r.idx..]
      && buf[start..] == buf[start..r.idx - 2] + "\r\n" + buf[r.idx..]
  {
    LineFacts(buf, i);
    hide LineSpec;
  }

  /** Printing the drained lines and what is left gives the input back. */
  lemma {:induction false} DrainPrints(buf: seq<char>, i: nat, start: nat)
    requires Resumable(buf, i) && start <= i
    ensures var d := Drain(buf, i, start); Printed(d.lines) + d.buf[d.start..] == buf[start..]
    decreases |buf| - i
  {
    hide LineSpec, Drain;
    DrainUnfolds(buf, i, start);
    var r := LineSpec(buf, i);
    if r.status.LineOk? {
      AroundLine(buf, i, start);
      DrainPrints(r.buf, r.idx, r.idx);
      var line, e := buf[start..r.idx - 2], Drain(r.buf, r.idx, r.idx);
      PrintedCons(line, e.lines, e.buf[e.start..]);
    } else {
      SameBytes(buf, i);
    }
  }

  lemma PrintedCons(line: string, lines: seq<string>, rest: string)
    ensures Printed([line] + lines) + rest == line + "\r\n" + (Printed(lines) + rest)
  {
    assert ([line] + lines)[1..] == lines;
  }

  lemma SameBytes(buf: seq<char>, i: nat)
    requires Resumable(buf, i) && !LineSpec(buf, i).status.LineOk?
    ensures LineSpec(buf, i).buf == buf
  {
  }

  /** The first line of printed text is found whole. */
  lemma FirstPrinted(before: seq<char>, line: string, after: string)
    requires before == [] || before[|before| - 1] != '\r'
    requires '\n' !in line
    ensures var buf, i := before + line + "\r\n" + after, |before|;
      && Resumable(buf, i)
      && LineSpec(buf, i) == Scan(LineOk, i + |line| + 2, before + line + "\0\0" + after)
  {
    var buf, i := before + line + "\r\n" + after, |before|;
    var n := i + |line| + 1;
    assert forall k :: i <= k < n - 1 ==> buf[k] == line[k - i] && line[k - i] in line;
    assert buf[n - 1] == '\r' && buf[n] == '\n';
    FirstLFIs(buf, i, n);
    assert buf[n - 1 := '\0'][n := '\0'] == before + line + "\0\0" + after;
  }

  lemma NoLine(before: seq<char>, rest: string)
    requires before == [] || before[|before| - 1] != '\r'
    requires '\n' !in rest
    ensures Resumable(before + rest, |before|)
    ensures LineSpec(before + rest, |before|).status.LineOpen? && LineSpec(before + rest, |before|).buf == before + rest
  {
    var buf := before + rest;
    assert forall k :: |before| <= k < |buf| ==> buf[k] == rest[k - |before|] && rest[k - |before|] in rest;
    FirstLFIs(buf, |before|, |buf|);
  }

  /** Lines without LF, printed and followed by bytes without LF, are drained exactly. */
  lemma {:induction false} PrintedDrains(before: seq<char>, lines: seq<string>, rest: seq<char>)
    requires before == [] || before[|before| - 1] != '\r'
    requires forall l :: l in lines ==> '\n' !in l
    requires '\n' !in rest
    ensures var buf := before + (Printed(lines) + rest);
      && Resumable(buf, |before|)
      && var d := Drain(buf, |before|, |before|); d.lines == lines && d.status.LineOpen? && d.buf[d.start..] == rest
    decreases |lines|
  {
    hide LineSpec, Drain, Resumable;
    var buf, i := before + (Printed(lines) + rest), |before|;
    if lines == [] {
      assert buf == before + rest;
      NoLine(before, rest);
      DrainUnfolds(buf, i, i);
    } else {
      var l, after := lines[0], Printed(lines[1..]) + rest;
      assert [l] + lines[1..] == lines;
      PrintedCons(l, lines[1..], rest);
      assert buf == before + l + "\r\n" + after;
      FirstPrinted(before, l, after);
      var before' := before + l + "\0\0";
      PrintedDrains(before', lines[1..], rest);
      assert before' + after == before + l + "\0\0" + after;
      DrainUnfolds(buf, i, i);
      assert buf[i..i + |l|] == l;
    }
  }

  /** The scanner of a fresh connection. */
  ghost function Fresh(): Drained {
    Drained([], LineOpen, 0, 0, [])
  }

  /** Round trip through any network: lines without LF come out as they were printed, under
      every way of cutting the bytes into chunks. */
  lemma AnyChunking(lines: seq<string>, rest: string, chunks: seq<string>)
    requires forall l :: l in lines ==> '\n' !in l
    requires '\n' !in rest
    requires chunks != [] && Flatten(chunks) == Printed(lines) + rest
    ensures Feed(Fresh(), chunks).lines == lines && Feed(Fresh(), chunks).status.LineOpen?
    ensures Feed(Fresh(), chunks).buf[Feed(Fresh(), chunks).start..] == rest
  {
    FeedIsDrain(Fresh(), chunks);
    PrintedDrains([], lines, rest);
    assert [] + Flatten(chunks) == [] + (Printed(lines) + rest);
    hide Drain, Feed, Flatten, Printed;
  }
}

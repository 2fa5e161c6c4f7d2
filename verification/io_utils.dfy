/**
 The single-file primitives of `IOUtils`: the line scan behind `find` and
 the byte loop behind `copyContents`. Files and streams are given as the
 values they deliver; opening, reading and closing are folded into how a
 stream stops.
 */
module IOUtils {
  import opened JavaLang

  newtype byte = x: int | 0 <= x < 256

  // ---------------------------------------------------------------------
  // Literal substring test (String.contains)
  // ---------------------------------------------------------------------

  /** `p` occurs in `s` starting at index `i`. */
  predicate OccursAt(p: string, s: string, i: int)
  {
    0 <= i && i + |p| <= |s| && s[i..i + |p|] == p
  }

  /** `p` occurs somewhere in `s` as a literal substring. */
  ghost predicate Occurs(p: string, s: string)
  {
    exists i :: OccursAt(p, s, i)
  }

  /** An occurrence in `s` is either at the front or an occurrence in `s[1..]`. */
  lemma OccursStep(p: string, s: string)
    requires |p| <= |s|
    ensures Occurs(p, s) <==> OccursAt(p, s, 0) || (|s| > 0 && Occurs(p, s[1..]))
  {
    if Occurs(p, s) && !OccursAt(p, s, 0) {
      var i :| OccursAt(p, s, i);
      assert s[1..][i - 1..i - 1 + |p|] == s[i..i + |p|];
      assert OccursAt(p, s[1..], i - 1);
    }
    if |s| > 0 && Occurs(p, s[1..]) {
      var i :| OccursAt(p, s[1..], i);
      assert s[1..][i..i + |p|] == s[i + 1..i + 1 + |p|];
      assert OccursAt(p, s, i + 1);
    }
  }

  /** `s.contains(p)`: tries each start position from the left. Like Java,
      the empty pattern occurs in every line. */
  function Contains(s: string, p: string): (r: bool)
    ensures r <==> Occurs(p, s)
    decreases |s|
  {
    if |p| > |s| then
      assert !Occurs(p, s);
      false
    else
      OccursStep(p, s);
      if s[..|p|] == p then true
      else if |s| == 0 then false
      else Contains(s[1..], p)
  }

  // ---------------------------------------------------------------------
  // find: 1-based numbers of the lines containing a pattern
  // ---------------------------------------------------------------------

  /** What a BufferedReader over a file yields: the lines `readLine` returns,
      in order, and how reading stops: `None` when `readLine` returns null,
      `Some(t)` when opening, reading or closing throws `t`. A file that
      cannot be opened yields no lines. */
  datatype LineReader = LineReader(lines: seq<string>, stop: Option<Throwable>)

  ghost predicate StrictlyIncreasing(ks: seq<int>)
  {
    forall i, j :: 0 <= i < j < |ks| ==> ks[i] < ks[j]
  }

  /** `ks` lists, in increasing order, exactly the 1-based numbers of the
      lines of `lines` that contain `pattern`. */
  ghost predicate IsMatchList(ks: seq<int>, lines: seq<string>, pattern: string)
  {
    && StrictlyIncreasing(ks)
    && (forall k :: k in ks ==> 1 <= k <= |lines|)
    && (forall k :: 1 <= k <= |lines| ==> (k in ks <==> Occurs(pattern, lines[k - 1])))
  }

  /** The loop of `find` from the line numbered `lineNumber` on: each line
      that contains the pattern contributes its number. */
  function ScanLines(lines: seq<string>, pattern: string, lineNumber: int): (ks: seq<int>)
    ensures StrictlyIncreasing(ks)
    ensures forall k :: k in ks <==>
      lineNumber <= k < lineNumber + |lines| && Occurs(pattern, lines[k - lineNumber])
    decreases |lines|
  {
    if lines == [] then []
    else
      var rest := ScanLines(lines[1..], pattern, lineNumber + 1);
      assert forall k :: k in rest ==> lines[1..][k - (lineNumber + 1)] == lines[k - lineNumber];
      assert forall j :: 0 <= j < |rest| ==> rest[j] in rest;
      if Contains(lines[0], pattern) then [lineNumber] + rest else rest
  }

  /** `IOUtils.find`: an I/O failure anywhere (opening, reading, closing) is
      caught and the numbers collected so far are returned; only a throwable
      that is not an IOException escapes. */
  function Find(reader: LineReader, pattern: string): (r: Outcome<seq<int>>)
    ensures r.Threw? <==> reader.stop.Some? && reader.stop.value != IOException
    ensures r.Threw? ==> r.thrown == reader.stop.value
    ensures r.Returned? ==> IsMatchList(r.value, reader.lines, pattern)
  {
    if reader.stop.Some? && reader.stop.value != IOException then
      Threw(reader.stop.value)
    else
      Returned(ScanLines(reader.lines, pattern, 1))
  }

  /** Scanning two consecutive runs of lines is scanning each run, the second
      numbered on from where the first stopped. */
  lemma {:induction false} ScanLinesAppend(a: seq<string>, b: seq<string>, pattern: string, lineNumber: int)
    ensures ScanLines(a + b, pattern, lineNumber)
         == ScanLines(a, pattern, lineNumber) + ScanLines(b, pattern, lineNumber + |a|)
    decreases |a|
  {
    if a == [] {
      assert a + b == b;
    } else {
      assert (a + b)[1..] == a[1..] + b;
      ScanLinesAppend(a[1..], b, pattern, lineNumber + 1);
    }
  }

  /** The tail of an increasing list holds exactly its elements above the head. */
  lemma IncreasingTail(xs: seq<int>)
    requires StrictlyIncreasing(xs) && xs != []
    ensures forall k :: k in xs[1..] <==> k in xs && k > xs[0]
  {
  }

  /** Two increasing lists with the same elements are the same list, so
      `IsMatchList` pins `find`'s result down completely. */
  lemma {:induction false} StrictlyIncreasingUnique(xs: seq<int>, ys: seq<int>)
    requires StrictlyIncreasing(xs) && StrictlyIncreasing(ys)
    requires forall k :: k in xs <==> k in ys
    ensures xs == ys
    decreases |xs|
  {
    if xs != [] && ys != [] {
      assert xs[0] == ys[0] by {
        assert xs[0] in xs && ys[0] in ys;
        var i :| 0 <= i < |ys| && ys[i] == xs[0];
        var j :| 0 <= j < |xs| && xs[j] == ys[0];
        assert ys[0] <= ys[i] && xs[0] <= xs[j];
      }
      IncreasingTail(xs);
      IncreasingTail(ys);
      StrictlyIncreasingUnique(xs[1..], ys[1..]);
      assert xs == [xs[0]] + xs[1..] && ys == [ys[0]] + ys[1..];
    } else {
      HeadIsElement(xs);
      HeadIsElement(ys);
    }
  }

  /** Names an element of a non-empty list, so that the element-wise
      hypothesis above can be instantiated without a case split. */
  lemma HeadIsElement(xs: seq<int>)
    ensures xs != [] ==> xs[0] in xs
  {
  }

  /** Any list that meets `IsMatchList` is the one `find` returns. */
  lemma FindIsTheMatchList(reader: LineReader, pattern: string, ks: seq<int>)
    requires reader.stop.None? || reader.stop == Some(IOException)
    requires IsMatchList(ks, reader.lines, pattern)
    ensures Find(reader, pattern) == Returned(ks)
  {
    var r := Find(reader, pattern).value;
    forall k ensures k in r <==> k in ks {
      if k in r || k in ks {
        assert 1 <= k <= |reader.lines|;
      }
    }
    StrictlyIncreasingUnique(r, ks);
  }

  /** A read that fails with an I/O error after the first `n` lines yields
      the matches collected so far: exactly the front of the full result
      that lies within those `n` lines. */
  lemma FindKeepsMatchesBeforeReadFailure(lines: seq<string>, n: nat, pattern: string)
    requires n <= |lines|
    ensures var partial := Find(LineReader(lines[..n], Some(IOException)), pattern);
            var full := Find(LineReader(lines, None), pattern);
            && partial.Returned? && full.Returned?
            && partial.value <= full.value
            && (forall k :: k in full.value[|partial.value|..] ==> k > n)
  {
    assert lines == lines[..n] + lines[n..];
    ScanLinesAppend(lines[..n], lines[n..], pattern, 1);
  }

  // ---------------------------------------------------------------------
  // copyContents: copy byte values from `read` while they are positive
  // ---------------------------------------------------------------------

  /** An InputStream: the bytes `read` returns, in order, and how it ends:
      `None` when `read` returns -1, `Some(t)` when `read` throws `t`. */
  datatype ByteStream = ByteStream(bytes: seq<byte>, stop: Option<Throwable>)

  /** The call `src.read()` once `pos` bytes have been consumed. */
  function Read(src: ByteStream, pos: nat): (r: Outcome<int>)
    requires pos <= |src.bytes|
  {
    if pos < |src.bytes| then Returned(src.bytes[pos] as int)
    else match src.stop
      case None => Returned(-1)
      case Some(t) => Threw(t)
  }

  /** What a copy loop wrote to the destination, and what it threw (if anything). */
  datatype CopyRun = CopyRun(written: seq<byte>, thrown: Option<Throwable>)

  /** The copy loop with continuation test `keepGoing` on each value `read`
      returns, from position `pos` on. It writes a run of the source that
      passes the test, and stops at the first value that fails it or at a
      throw, whichever comes first. */
  function CopyWhile(src: ByteStream, pos: nat, keepGoing: int -> bool): (r: CopyRun)
    requires pos <= |src.bytes|
    requires !keepGoing(-1)
    ensures pos + |r.written| <= |src.bytes|
    ensures r.written == src.bytes[pos..pos + |r.written|]
    ensures forall i :: 0 <= i < |r.written| ==> keepGoing(r.written[i] as int)
    ensures pos + |r.written| == |src.bytes| || !keepGoing(src.bytes[pos + |r.written|] as int)
    ensures r.thrown.Some? <==> pos + |r.written| == |src.bytes| && src.stop.Some?
    ensures r.thrown.Some? ==> r.thrown == src.stop
    decreases |src.bytes| - pos
  {
    match Read(src, pos)
    case Threw(t) => CopyRun([], Some(t))
    case Returned(value) =>
      if keepGoing(value) then
        var rest := CopyWhile(src, pos + 1, keepGoing);
        CopyRun([value as byte] + rest.written, rest.thrown)
      else
        CopyRun([], None)
  }

  /** The test `copyContents` writes: `read() > 0`. */
  predicate Positive(value: int)
  {
    value > 0
  }

  /** `IOUtils.copyContents` as written: it writes the longest NUL-free
      prefix of the source and then stops, both at end of stream and at the
      first zero byte. A throw from `read` escapes only if the loop reaches it. */
  function CopyContents(src: ByteStream): (r: CopyRun)
    ensures r.written <= src.bytes
    ensures forall i :: 0 <= i < |r.written| ==> r.written[i] != 0
    ensures |r.written| == |src.bytes| || src.bytes[|r.written|] == 0
    ensures r.thrown.Some? <==> |r.written| == |src.bytes| && src.stop.Some?
    ensures r.thrown.Some? ==> r.thrown == src.stop
  {
    CopyWhile(src, 0, Positive)
  }

  /** Whatever follows a NUL byte is never copied, and the loop reports no
      failure: the truncation is silent. */
  lemma CopyContentsStopsAtNul(src: ByteStream, j: nat)
    requires j < |src.bytes| && src.bytes[j] == 0
    ensures |CopyContents(src).written| <= j
    ensures CopyContents(src).thrown == None
  {
  }

  /** The concrete case: the three bytes 'A', NUL, 'B' copy as 'A' alone. */
  lemma CopyContentsDropsAfterNulExample()
    ensures CopyContents(ByteStream([65, 0, 66], None)).written == [65]
  {
    var r := CopyContents(ByteStream([65, 0, 66], None));
    assert r.written[..1] == [65];
  }

  /** The loop as evidently intended: copy until `read` returns -1. */
  predicate NotEndOfStream(value: int)
  {
    value != -1
  }

  /** `copyContents` with the end-of-stream test `read() != -1`: the whole
      source reaches the destination, and a failing stream still throws. */
  function CopyContentsToEnd(src: ByteStream): (r: CopyRun)
    ensures r.written == src.bytes
    ensures r.thrown == src.stop
  {
    CopyWhile(src, 0, NotEndOfStream)
  }
}

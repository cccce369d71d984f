/** The boot log the camera prints after a reset: free-form text lines, each
    ended by a line feed, up to the line "Init end\r\n". The driver collects
    each line in a zero-filled 25-byte buffer and compares it with `strcmp`. */
module BootLog {
  import opened Wire

  /** Size of the line buffer. */
  const LineCapacity: nat := 25

  /** "Init end\r\n" as bytes. */
  const InitEnd: seq<Byte> := [0x49, 0x6E, 0x69, 0x74, 0x20, 0x65, 0x6E, 0x64, CR, LF]

  /** Position j of s begins a line: it is the start of s or follows a line feed. */
  predicate LineStart(s: seq<Byte>, j: int)
  {
    j == 0 || (0 < j <= |s| && s[j - 1] == LF)
  }

  /** n zero bytes, what `memset(buf, 0, n)` leaves behind. */
  function Zeros(n: nat): seq<Byte>
  {
    seq(n, _ => 0)
  }

  /** The zero-terminated string held in b: its bytes up to the first zero. */
  function CString(b: seq<Byte>): seq<Byte>
    decreases |b|
  {
    if b == [] || b[0] == 0 then [] else [b[0]] + CString(b[1..])
  }

  /** The string held in b is a prefix of b without zero bytes, ended by
      the first zero of b or by the end of b. */
  lemma {:induction false} CStringIsPrefix(b: seq<Byte>)
    ensures CString(b) <= b && 0 !in CString(b)
    ensures |CString(b)| < |b| ==> b[|CString(b)|] == 0
    decreases |b|
  {
    if b != [] && b[0] != 0 {
      CStringIsPrefix(b[1..]);
      assert b == [b[0]] + b[1..];
    }
  }

  /** The terminator line "Init end\r\n" begins at position j of s. */
  predicate TerminatorAt(s: seq<Byte>, j: int)
  {
    LineStart(s, j) && 0 <= j && j + |InitEnd| <= |s| && s[j..j + |InitEnd|] == InitEnd
  }

  /** The handshake reading s byte by byte: i is the next byte to read and
      the current line began at `line`, so byte i goes to index i - line of
      the 25-byte buffer. A line feed ends the line; the handshake stops
      after the line "Init end\r\n" and otherwise starts a new line. The
      result is the position just past the terminator line, or None when s
      ends first or a line does not fit the buffer. */
  function ScanLog(s: seq<Byte>, line: nat, i: nat): (r: Option<nat>)
    requires line <= i <= |s|
    ensures r.Some? ==> i < r.value <= |s|
    decreases |s| - i
  {
    if i == |s| || i - line >= LineCapacity then None
    else if s[i] != LF then ScanLog(s, line, i + 1)
    else if s[line..i + 1] == InitEnd then Some(i + 1)
    else ScanLog(s, i + 1, i + 1)
  }

  /** Number of bytes of s the handshake consumes. */
  function BootLogEnd(s: seq<Byte>): (r: Option<nat>)
    ensures r.Some? ==> r.value <= |s|
  {
    ScanLog(s, 0, 0)
  }

  /** The handshake stops at the FIRST terminator line of the log: the bytes
      it consumes end with a complete "Init end\r\n" line, and no complete
      line before that one is the terminator. */
  lemma BootLogEndIsFirst(s: seq<Byte>)
    requires BootLogEnd(s).Some?
    ensures TerminatorAt(s, BootLogEnd(s).value - |InitEnd|)
    ensures forall j :: 0 <= j < BootLogEnd(s).value - |InitEnd| ==> !TerminatorAt(s, j)
  {
    ScanEndsAtTerminator(s, 0, 0);
    ScanIsFirst(s, 0, 0);
  }

  /** From a line start `line` with no line feed in s[line..i], the scan
      stops right after a terminator line. */
  lemma {:induction false} ScanEndsAtTerminator(s: seq<Byte>, line: nat, i: nat)
    requires line <= i <= |s| && LineStart(s, line) && LF !in s[line..i]
    requires ScanLog(s, line, i).Some?
    ensures TerminatorAt(s, ScanLog(s, line, i).value - |InitEnd|)
    decreases |s| - i
  {
    ScanFits(s, line, i);
    if s[i] != LF {
      ScanGoesOn(s, line, i);
      ScanEndsAtTerminator(s, line, i + 1);
    } else if s[line..i + 1] == InitEnd {
      ScanFinds(s, line, i);
    } else {
      ScanNextLine(s, line, i);
      ScanEndsAtTerminator(s, i + 1, i + 1);
    }
  }

  /** From a line start `line` with no line feed in s[line..i], no terminator
      line begins between `line` and the one the scan stops after. */
  lemma {:induction false} ScanIsFirst(s: seq<Byte>, line: nat, i: nat)
    requires line <= i <= |s| && LineStart(s, line) && LF !in s[line..i]
    requires ScanLog(s, line, i).Some?
    ensures forall j :: line <= j < ScanLog(s, line, i).value - |InitEnd| ==> !TerminatorAt(s, j)
    decreases |s| - i
  {
    ScanFits(s, line, i);
    if s[i] != LF {
      ScanGoesOn(s, line, i);
      ScanIsFirst(s, line, i + 1);
    } else if s[line..i + 1] == InitEnd {
      ScanFinds(s, line, i);
    } else {
      ScanNextLine(s, line, i);
      ScanIsFirst(s, i + 1, i + 1);
    }
  }

  /** The line beginning at k has its line feed within the 25-byte buffer. */
  predicate LineFits(s: seq<Byte>, k: int)
  {
    exists e :: k <= e < k + LineCapacity && 0 <= e < |s| && s[e] == LF
  }

  /** Every line beginning between `line` and j fits the buffer. */
  predicate LinesFit(s: seq<Byte>, line: int, j: int)
  {
    forall k :: line <= k <= j && LineStart(s, k) ==> LineFits(s, k)
  }

  /** A log holding the terminator line at j, whose lines up to and including
      that one all fit the buffer, ends the handshake no later than after
      that line. */
  lemma BootLogComplete(s: seq<Byte>, j: nat)
    requires TerminatorAt(s, j) && LinesFit(s, 0, j)
    ensures BootLogEnd(s).Some? && BootLogEnd(s).value <= j + |InitEnd|
  {
    ScanComplete(s, 0, 0, j);
  }

  /** With the first terminator line at j and every line up to it fitting the
      buffer, the handshake consumes exactly the log up to the end of that
      line. */
  lemma BootLogEndAt(s: seq<Byte>, j: nat)
    requires TerminatorAt(s, j) && LinesFit(s, 0, j)
    requires forall k :: 0 <= k < j ==> !TerminatorAt(s, k)
    ensures BootLogEnd(s) == Some(j + |InitEnd|)
  {
    BootLogComplete(s, j);
    BootLogEndIsFirst(s);
  }

  /** The handshake succeeds exactly when the log holds a terminator line
      such that every line up to and including it fits the buffer. */
  lemma BootLogSucceeds(s: seq<Byte>)
    ensures BootLogEnd(s).Some? <==> exists j :: TerminatorAt(s, j) && LinesFit(s, 0, j)
  {
    if BootLogEnd(s).Some? {
      var j := BootLogEnd(s).value - |InitEnd|;
      BootLogEndIsFirst(s);
      ScanFitsAll(s, 0, 0);
      assert TerminatorAt(s, j) && LinesFit(s, 0, j);
    } else if j :| TerminatorAt(s, j) && LinesFit(s, 0, j) {
      BootLogComplete(s, j);
    }
  }

  /** From a line start `line` with no line feed in s[line..i], a successful
      scan has seen only lines that fit the buffer. */
  lemma {:induction false} ScanFitsAll(s: seq<Byte>, line: nat, i: nat)
    requires line <= i <= |s| && LineStart(s, line) && LF !in s[line..i]
    requires ScanLog(s, line, i).Some?
    ensures LinesFit(s, line, ScanLog(s, line, i).value - |InitEnd|)
    decreases |s| - i
  {
    ScanFits(s, line, i);
    if s[i] != LF {
      ScanGoesOn(s, line, i);
      ScanFitsAll(s, line, i + 1);
    } else if s[line..i + 1] == InitEnd {
      ScanFinds(s, line, i);
      assert LineFits(s, line);
    } else {
      ScanNextLine(s, line, i);
      ScanFitsAll(s, i + 1, i + 1);
      OnlyLineStart(s, line, i);
      assert LineFits(s, line);
    }
  }

  /** Inside a line with no line feed before i, only `line` itself is a line start. */
  lemma OnlyLineStart(s: seq<Byte>, line: nat, i: nat)
    requires line <= i < |s| && LF !in s[line..i]
    ensures forall k :: line < k <= i ==> !LineStart(s, k)
  {
    AbsentBetween(s, line, i, LF);
  }

  /** From a line start `line` with no line feed in s[line..i], a terminator
      line at j >= line after lines that all fit makes the scan succeed, no
      later than just past that terminator. */
  lemma {:induction false} ScanComplete(s: seq<Byte>, line: nat, i: nat, j: nat)
    requires line <= i <= |s| && LineStart(s, line) && LF !in s[line..i]
    requires line <= j && TerminatorAt(s, j) && LinesFit(s, line, j)
    ensures ScanLog(s, line, i).Some? && ScanLog(s, line, i).value <= j + |InitEnd|
    decreases |s| - i
  {
    assert LineFits(s, line);
    var e :| line <= e < line + LineCapacity && 0 <= e < |s| && s[e] == LF;
    AbsentBetween(s, line, i, LF);
    assert i < |s| && i - line < LineCapacity;
    if s[i] != LF {
      ScanGoesOn(s, line, i);
      ScanComplete(s, line, i + 1, j);
    } else if s[line..i + 1] == InitEnd {
      ScanFinds(s, line, i);
      if line < j {
        assert s[j - 1] == LF;
      }
    } else {
      ScanNextLine(s, line, i);
      assert i < j;
      ScanComplete(s, i + 1, i + 1, j);
    }
  }

  /** A byte other than a line feed: the scan goes on in the same line. */
  lemma ScanGoesOn(s: seq<Byte>, line: nat, i: nat)
    requires line <= i < |s| && i - line < LineCapacity && LF !in s[line..i] && s[i] != LF
    ensures ScanLog(s, line, i) == ScanLog(s, line, i + 1)
    ensures LF !in s[line..i + 1]
  {
    LineGoesOn(s, line, i);
  }

  /** The terminator line: the scan stops right after it. */
  lemma ScanFinds(s: seq<Byte>, line: nat, i: nat)
    requires line <= i < |s| && i - line < LineCapacity && LineStart(s, line)
    requires s[i] == LF && s[line..i + 1] == InitEnd
    ensures ScanLog(s, line, i) == Some(line + |InitEnd|) && TerminatorAt(s, line)
  {
  }

  /** Any other line: the scan restarts at the next line, and no terminator
      begins inside the line just ended. */
  lemma ScanNextLine(s: seq<Byte>, line: nat, i: nat)
    requires line <= i < |s| && i - line < LineCapacity && LF !in s[line..i]
    requires s[i] == LF && s[line..i + 1] != InitEnd
    ensures ScanLog(s, line, i) == ScanLog(s, i + 1, i + 1)
    ensures LineStart(s, i + 1) && LF !in s[i + 1..i + 1]
    ensures forall j :: line <= j <= i ==> !TerminatorAt(s, j)
  {
    NoEarlyTerminator(s, line, i);
  }

  /** A byte that is not a line feed extends the current line. */
  lemma LineGoesOn(s: seq<Byte>, line: nat, i: nat)
    requires line <= i < |s| && LF !in s[line..i] && s[i] != LF
    ensures LF !in s[line..i + 1]
  {
    assert s[line..i + 1] == s[line..i] + [s[i]];
  }

  /** x occurs nowhere in t[lo..hi]. */
  lemma AbsentBetween(t: seq<Byte>, lo: nat, hi: nat, x: Byte)
    requires lo <= hi <= |t| && x !in t[lo..hi]
    ensures forall i :: lo <= i < hi ==> t[i] != x
  {
    forall i | lo <= i < hi
      ensures t[i] != x
    {
      assert t[lo..hi][i - lo] == t[i];
    }
  }

  /** x occurs nowhere among the first p bytes of t. */
  lemma AbsentBefore(t: seq<Byte>, p: nat, x: Byte)
    requires p <= |t| && x !in t[..p]
    ensures forall i :: 0 <= i < p ==> t[i] != x
  {
    forall i | 0 <= i < p
      ensures t[i] != x
    {
      assert t[..p][i] == t[i];
    }
  }

  /** If the line s[line..i + 1] is not the terminator, no terminator begins
      inside it. */
  lemma NoEarlyTerminator(s: seq<Byte>, line: nat, i: nat)
    requires line <= i < |s| && s[i] == LF && LF !in s[line..i] && s[line..i + 1] != InitEnd
    ensures forall j :: line <= j <= i ==> !TerminatorAt(s, j)
  {
    AbsentBetween(s, line, i, LF);
    forall j | line <= j <= i
      ensures !TerminatorAt(s, j)
    {
      if j == line && line + |InitEnd| <= |s| {
        var k := i - line;
        if k < 9 {
          assert s[line..line + |InitEnd|][k] != InitEnd[k];
        } else if k == 9 {
          assert s[line..line + |InitEnd|] == s[line..i + 1];
        } else {
          assert s[line..line + |InitEnd|][9] != InitEnd[9];
        }
      }
    }
  }

  /** While the scan has a result, the next byte exists and its buffer index
      is inside the buffer. */
  lemma ScanFits(s: seq<Byte>, line: nat, i: nat)
    requires line <= i <= |s| && ScanLog(s, line, i).Some?
    ensures i < |s| && i - line < LineCapacity
  {
  }

  /** The buffer holding the first p bytes of a line, zero-filled after them,
      holds the first p + 1 once `*p = read_byte()` stores byte p. */
  lemma StoreByte(s: seq<Byte>, line: nat, p: nat)
    requires p < LineCapacity && line + p < |s|
    ensures (s[line..line + p] + Zeros(LineCapacity - p))[p := s[line + p]]
         == s[line..line + p + 1] + Zeros(LineCapacity - (p + 1))
  {
  }

  /** The 25-byte buffer b holds the line s[line..i + 1] followed by zeros,
      so `strcmp(b, "Init end\r\n") == 0` decides whether that line is the
      terminator. */
  lemma LineInBuffer(b: seq<Byte>, s: seq<Byte>, line: nat, i: nat)
    requires line <= i < |s| && i - line < LineCapacity && s[i] == LF && LF !in s[line..i]
    requires b == s[line..i + 1] + Zeros(LineCapacity - (i + 1 - line))
    ensures CString(b) == InitEnd <==> s[line..i + 1] == InitEnd
  {
    var l := s[line..i + 1];
    assert l[..|l| - 1] == s[line..i];
    TerminatorLine(l);
  }

  /** The bytes up to the first zero of b are b[..k]. */
  lemma CStringPrefix(b: seq<Byte>, k: nat)
    requires k <= |b| && 0 !in b[..k] && (k == |b| || b[k] == 0)
    ensures CString(b) == b[..k]
  {
    AbsentBefore(b, k, 0);
    CStringIsPrefix(b);
    var r := CString(b);
    assert forall i :: 0 <= i < |r| ==> r[i] == b[i] && r[i] != 0;
    assert |r| == k;
  }

  /** `strcmp(buf, "Init end\r\n") == 0` on the zero-filled buffer holding one
      line (ending at its only line feed) holds exactly when that line is the
      terminator: zero bytes inside a line and the zero padding never make a
      different line compare equal. */
  lemma TerminatorLine(line: seq<Byte>)
    requires 0 < |line| <= LineCapacity
    requires line[|line| - 1] == LF && LF !in line[..|line| - 1]
    ensures CString(line + Zeros(LineCapacity - |line|)) == InitEnd <==> line == InitEnd
  {
    if line == InitEnd {
      PaddedInitEnd();
    }
    PaddedTerminator(line);
  }

  /** The terminator line itself, zero-padded, compares equal. */
  lemma PaddedInitEnd()
    ensures CString(InitEnd + Zeros(LineCapacity - |InitEnd|)) == InitEnd
  {
    var b := InitEnd + Zeros(LineCapacity - |InitEnd|);
    assert b[..|InitEnd|] == InitEnd;
    assert b[|InitEnd|] == 0;
    CStringPrefix(b, |InitEnd|);
  }

  /** A padded line whose zero-terminated string is the terminator is the
      terminator: its line feed at index 9 must be the line's last byte. */
  lemma PaddedTerminator(line: seq<Byte>)
    requires 0 < |line| <= LineCapacity
    requires line[|line| - 1] == LF && LF !in line[..|line| - 1]
    ensures CString(line + Zeros(LineCapacity - |line|)) == InitEnd ==> line == InitEnd
  {
    var b := line + Zeros(LineCapacity - |line|);
    if CString(b) == InitEnd {
      PaddedTerminatorIs(line, b);
    }
  }

  /** The same, for a buffer b known to hold the padded line. */
  lemma PaddedTerminatorIs(line: seq<Byte>, b: seq<Byte>)
    requires 0 < |line| <= LineCapacity
    requires line[|line| - 1] == LF && LF !in line[..|line| - 1]
    requires b == line + Zeros(LineCapacity - |line|)
    requires CString(b) == InitEnd
    ensures line == InitEnd
  {
    CStringIsPrefix(b);
    assert b[..|InitEnd|] == InitEnd;
    assert b[9] == LF;
    assert |line| > 9;
    AbsentBefore(line, |line| - 1, LF);
    assert |line| == 10;
    assert line == b[..|InitEnd|];
  }
}

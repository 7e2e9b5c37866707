// CRTSPProtocol::getLineData: one CRLF-terminated line of a request.

module LineSplitter {

  const CRLF: string := "\r\n"

  predicate CrlfAt(s: string, i: int) {
    0 <= i && i + 1 < |s| && s[i] == '\r' && s[i + 1] == '\n'
  }

  /** Where the line ends are among the first n positions, in ascending order. */
  function LineEnds(s: string, n: nat): (ends: seq<nat>)
    ensures forall k :: 0 <= k < |ends| ==> ends[k] < n && CrlfAt(s, ends[k])
  {
    if n == 0 then []
    else LineEnds(s, n - 1) + (if CrlfAt(s, n - 1) then [n - 1] else [])
  }

  /** Two line ends do not overlap. */
  lemma {:induction false} EndsApart(s: string, n: nat, k: nat)
    requires 0 < k < |LineEnds(s, n)|
    ensures LineEnds(s, n)[k - 1] + 2 <= LineEnds(s, n)[k]
  {
    var front := LineEnds(s, n - 1);
    if k < |front| {
      EndsApart(s, n - 1, k);
    } else {
      assert CrlfAt(s, front[k - 1]);
    }
  }

  /** Where row k starts: after the line end before it. */
  function RowStart(ends: seq<nat>, k: nat): (p: nat)
    requires k <= |ends|
  {
    if k == 0 then 0 else ends[k - 1] + 2
  }

  lemma RowInside(s: string, n: nat, k: nat)
    requires n <= |s| && k < |LineEnds(s, n)|
    ensures RowStart(LineEnds(s, n), k) <= LineEnds(s, n)[k] + 2 <= |s|
  {
    assert CrlfAt(s, LineEnds(s, n)[k]);
    if k > 0 {
      EndsApart(s, n, k);
    }
  }

  /** Row k of the buffer, with the CRLF that ends it. */
  function Row(s: string, k: nat): string
    requires k < |LineEnds(s, |s|)|
  {
    var ends := LineEnds(s, |s|);
    RowInside(s, |s|, k);
    s[RowStart(ends, k)..ends[k] + 2]
  }

  // ----- the method -----

  /** The scan: where the wanted row starts and ends. Without such a row endPos stays 0. */
  method Locate(s: string, length: int, row: int) returns (beginPos: nat, endPos: nat)
    requires length <= |s|
    ensures var text := if length < 0 then "" else s[..length];
            var ends := LineEnds(text, |text|);
            if 0 <= row < |ends| then
              beginPos == RowStart(ends, row) && endPos == ends[row] + 2 && endPos <= |text|
            else
              beginPos == RowStart(ends, |ends|) && endPos == 0
    ensures beginPos <= endPos <==> CopyDefined(if length < 0 then "" else s[..length], row)
  {
    ghost var text := if length < 0 then "" else s[..length];
    var rowTemp := 0;
    beginPos, endPos := 0, 0;
    var i := 0;
    while i + 1 < length
      invariant 0 <= i <= |text| && (i < length ==> length == |text|)
      invariant rowTemp == |LineEnds(text, i)| && (row < 0 || rowTemp <= row)
      invariant beginPos == RowStart(LineEnds(text, i), rowTemp) && endPos == 0
    {
      assert s[i] == text[i] && s[i + 1] == text[i + 1];
      if s[i] == '\r' && s[i + 1] == '\n' {
        if rowTemp == row {
          endPos := i + 2;
          LineEndsGrow(text, i + 1, |text|);
          RowInside(text, |text|, row);
          return;
        } else {
          beginPos := i + 2;
          rowTemp := rowTemp + 1;
        }
      }
      i := i + 1;
    }
    NoMoreEnds(text, i);
  }

  lemma {:induction false} LineEndsGrow(s: string, m: nat, n: nat)
    requires m <= n
    ensures LineEnds(s, m) <= LineEnds(s, n)
    decreases n
  {
    if m < n {
      LineEndsGrow(s, m, n - 1);
    }
  }

  lemma {:induction false} NoMoreEnds(s: string, i: nat)
    requires i <= |s| <= i + 1
    ensures LineEnds(s, |s|) == LineEnds(s, i)
  {
  }

  /** The copy that follows has a size of at least 0 exactly when the row exists or there is no line
      end at all. */
  predicate CopyDefined(text: string, row: int) {
    var ends := LineEnds(text, |text|);
    |ends| == 0 || 0 <= row < |ends|
  }

  method GetLineData(buffer: array<char>, rowData: array<char>, length: int, row: int)
    requires length <= buffer.Length && buffer != rowData
    requires var text := if length < 0 then "" else buffer[..length];
             CopyDefined(text, row)
             && (0 <= row < |LineEnds(text, |text|)| ==> |Row(text, row)| <= rowData.Length)
    modifies rowData
    ensures var text := if length < 0 then "" else buffer[..length];
            var line := if 0 <= row < |LineEnds(text, |text|)| then Row(text, row) else "";
            && |line| <= rowData.Length
            && rowData[..|line|] == line
            && rowData[|line|..] == old(rowData[|line|..])
  {
    ghost var text := if length < 0 then "" else buffer[..length];
    assert length >= 0 ==> buffer[..][..length] == text;
    var beginPos, endPos := Locate(buffer[..], length, row);
    ghost var line := if 0 <= row < |LineEnds(text, |text|)| then Row(text, row) else "";
    assert |line| == endPos - beginPos;
    assert forall i :: 0 <= i < |line| ==> line[i] == buffer[beginPos + i];
    forall i | 0 <= i < endPos - beginPos {
      rowData[i] := buffer[beginPos + i];
    }
    assert length >= 0 ==> buffer[..length] == text;
  }

  // ----- what the rows are -----

  /** Lines as a sender writes them. */
  function Render(lines: seq<string>): string {
    if lines == [] then "" else lines[0] + CRLF + Render(lines[1..])
  }

  ghost predicate IsLine(line: string) {
    forall i :: !CrlfAt(line, i)
  }

  function Shifted(ends: seq<nat>, d: nat): (r: seq<nat>)
    ensures |r| == |ends| && forall k :: 0 <= k < |r| ==> r[k] == ends[k] + d
  {
    seq(|ends|, k requires 0 <= k < |ends| => ends[k] + d)
  }

  lemma ShiftedConcat(a: seq<nat>, b: seq<nat>, d: nat)
    ensures Shifted(a + b, d) == Shifted(a, d) + Shifted(b, d)
  {
  }

  lemma {:induction false} EndsOfLine(line: string, rest: string, n: nat)
    requires IsLine(line) && n <= |line|
    ensures LineEnds(line + CRLF + rest, n) == []
  {
    if n > 0 {
      EndsOfLine(line, rest, n - 1);
      NoEndInside(line, rest, n - 1);
    }
  }

  lemma NoEndInside(line: string, rest: string, i: nat)
    requires IsLine(line) && i < |line|
    ensures !CrlfAt(line + CRLF + rest, i)
  {
    var s := line + CRLF + rest;
    assert !CrlfAt(line, i);
    assert s[i] == line[i] && s[i + 1] == if i + 1 < |line| then line[i + 1] else '\r';
  }

  lemma SameBeyond(line: string, rest: string, i: nat)
    ensures CrlfAt(line + CRLF + rest, |line| + 2 + i) <==> CrlfAt(rest, i)
  {
    var s := line + CRLF + rest;
    assert i < |rest| ==> s[|line| + 2 + i] == rest[i];
    assert i + 1 < |rest| ==> s[|line| + 2 + i + 1] == rest[i + 1];
  }

  /** From position d on s has the line ends of rest. */
  lemma {:induction false} EndsBeyond(s: string, rest: string, d: nat, n: nat)
    requires forall i: nat {:trigger CrlfAt(rest, i)} :: CrlfAt(s, d + i) <==> CrlfAt(rest, i)
    ensures LineEnds(s, d + n) == LineEnds(s, d) + Shifted(LineEnds(rest, n), d)
  {
    if n > 0 {
      EndsBeyond(s, rest, d, n - 1);
      var last := if CrlfAt(rest, n - 1) then [n - 1] else [];
      ShiftedConcat(LineEnds(rest, n - 1), last, d);
      assert LineEnds(s, d + n) == LineEnds(s, d + (n - 1)) + Shifted(last, d);
    }
  }

  /** The line ends of a line followed by more text. */
  lemma EndsOfCons(line: string, rest: string, n: nat)
    requires IsLine(line) && n <= |rest|
    ensures LineEnds(line + CRLF + rest, |line| + 2 + n) == [|line|] + Shifted(LineEnds(rest, n), |line| + 2)
  {
    var s, d := line + CRLF + rest, |line| + 2;
    FirstEnd(line, rest);
    forall i: nat
      ensures CrlfAt(s, d + i) <==> CrlfAt(rest, i)
    {
      SameBeyond(line, rest, i);
    }
    EndsBeyond(s, rest, d, n);
  }

  lemma FirstEnd(line: string, rest: string)
    requires IsLine(line)
    ensures LineEnds(line + CRLF + rest, |line| + 2) == [|line|]
  {
    var s := line + CRLF + rest;
    EndsOfLine(line, rest, |line|);
    assert CrlfAt(s, |line|) && !CrlfAt(s, |line| + 1);
    assert LineEnds(s, |line| + 1) == [|line|];
  }

  lemma FirstRow(line: string, tail: string)
    requires IsLine(line)
    ensures var s := line + CRLF + tail;
            0 < |LineEnds(s, |s|)| && Row(s, 0) == line + CRLF
  {
    var s := line + CRLF + tail;
    EndsOfCons(line, tail, |tail|);
    assert |s| == |line| + 2 + |tail|;
    assert LineEnds(s, |s|)[0] == |line|;
    assert s[0..|line| + 2] == line + CRLF;
  }

  lemma RowOfTail(line: string, tail: string, k: nat)
    requires IsLine(line) && 0 < k <= |LineEnds(tail, |tail|)|
    ensures var s := line + CRLF + tail;
            k < |LineEnds(s, |s|)| && Row(s, k) == Row(tail, k - 1)
  {
    var s, d := line + CRLF + tail, |line| + 2;
    EndsOfCons(line, tail, |tail|);
    assert |s| == d + |tail| && s[d..] == tail;
    RowShift(s, tail, d, k);
  }

  /** Rendered lines have one line end each. */
  lemma {:induction false} RowCount(lines: seq<string>)
    requires forall i :: 0 <= i < |lines| ==> IsLine(lines[i])
    ensures |LineEnds(Render(lines), |Render(lines)|)| == |lines|
    decreases lines
  {
    if lines != [] {
      var line, tail := lines[0], Render(lines[1..]);
      RowCount(lines[1..]);
      EndsOfCons(line, tail, |tail|);
      assert |line + CRLF + tail| == |line| + 2 + |tail|;
    }
  }

  /** Row k of rendered lines is line k with its CRLF, and there is one row for each line. */
  lemma {:induction false} RowsAreLines(lines: seq<string>, k: nat)
    requires (forall i :: 0 <= i < |lines| ==> IsLine(lines[i])) && k < |lines|
    ensures var s := Render(lines);
            |LineEnds(s, |s|)| == |lines| && Row(s, k) == lines[k] + "\r\n"
    decreases lines
  {
    var line, rest := lines[0], lines[1..];
    RowCount(lines);
    if k == 0 {
      FirstRow(line, Render(rest));
    } else {
      RowCount(rest);
      RowsAreLines(rest, k - 1);
      RowOfTail(line, Render(rest), k);
    }
  }

  lemma RowShift(s: string, tail: string, d: nat, k: nat)
    requires d >= 2 && |s| == d + |tail| && s[d..] == tail
    requires LineEnds(s, |s|) == [d - 2] + Shifted(LineEnds(tail, |tail|), d)
    requires 0 < k <= |LineEnds(tail, |tail|)|
    ensures Row(s, k) == Row(tail, k - 1)
  {
    var ends := LineEnds(tail, |tail|);
    RowStartCons(ends, d - 2, d, k);
    RowInside(tail, |tail|, k - 1);
    SliceBeyond(s, d, RowStart(ends, k - 1), ends[k - 1] + 2);
  }

  lemma RowStartCons(ends: seq<nat>, first: nat, d: nat, k: nat)
    requires first + 2 == d && 0 < k <= |ends|
    ensures var all := [first] + Shifted(ends, d);
            RowStart(all, k) == d + RowStart(ends, k - 1) && all[k] == d + ends[k - 1]
  {
  }

  lemma SliceBeyond(s: string, d: nat, i: nat, j: nat)
    requires i <= j && d + j <= |s|
    ensures s[d + i..d + j] == s[d..][i..j]
  {
  }

  ghost function JoinRows(s: string, n: nat): string
    requires n <= |LineEnds(s, |s|)|
  {
    if n == 0 then "" else JoinRows(s, n - 1) + Row(s, n - 1)
  }

  /** For any buffer, the first n rows together are the buffer up to its n-th line end. */
  lemma {:induction false} RowsRebuild(s: string, n: nat)
    requires n <= |LineEnds(s, |s|)|
    ensures RowStart(LineEnds(s, |s|), n) <= |s|
    ensures JoinRows(s, n) == s[..RowStart(LineEnds(s, |s|), n)]
  {
    if n > 0 {
      RowsRebuild(s, n - 1);
      RowInside(s, |s|, n - 1);
      var ends := LineEnds(s, |s|);
      var p, q := RowStart(ends, n - 1), ends[n - 1] + 2;
      calc {
        JoinRows(s, n);
        JoinRows(s, n - 1) + Row(s, n - 1);
        s[..p] + s[p..q];
        { TakeTwice(s, p, q); }
        s[..q];
      }
    }
  }

  lemma TakeTwice(s: string, p: nat, q: nat)
    requires p <= q <= |s|
    ensures s[..q] == s[..p] + s[p..q]
  {
  }
}

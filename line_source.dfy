/**
 * The word list `words.txt` read through a `BufReader`. The file is a byte
 * sequence; `read_line` returns the bytes from the current position up to and
 * including the next '\n', or up to the end of the file when no '\n' is left,
 * and returns nothing (size 0) at the end of the file.
 */
module LineSource {
  import opened Base

  /** Length of the first line of `s`, its '\n' included; all of `s` when it holds no '\n'. */
  function LineLen(s: seq<Byte>): (n: nat)
    ensures n <= |s|
    ensures s != [] ==> 1 <= n
  {
    if s == [] then 0 else if s[0] == NEWLINE then 1 else 1 + LineLen(s[1..])
  }

  /** The lines of `s` in the order `read_line` returns them, each with its terminator. */
  function Lines(s: seq<Byte>): (ls: seq<seq<Byte>>)
    ensures forall i :: 0 <= i < |ls| ==> ls[i] != []
    decreases |s|
  {
    if s == [] then [] else [s[..LineLen(s)]] + Lines(s[LineLen(s)..])
  }

  function Concat(ls: seq<seq<Byte>>): seq<Byte> {
    if ls == [] then [] else ls[0] + Concat(ls[1..])
  }

  /** `read_line` over an open file. `pos` is the byte offset of the reader;
      the ghost `next` is the index in `Lines(data)` of the line it returns next. */
  class LineReader {
    const data: seq<Byte>
    var pos: nat
    ghost var next: nat

    ghost predicate Valid()
      reads this
    {
      pos <= |data| && next <= |Lines(data)| && Lines(data[pos..]) == Lines(data)[next..]
    }

    /** A reader at the start of `data`. */
    constructor (data: seq<Byte>)
      ensures Valid() && this.data == data && pos == 0 && next == 0
    {
      this.data := data;
      pos := 0;
      next := 0;
      new;
      assert data[0..] == data;
    }

    /** `read_line`: the next line with its terminator, or the empty line at the end of the file. */
    method ReadLine() returns (raw: seq<Byte>)
      requires Valid()
      modifies this
      ensures Valid()
      ensures |raw| == 0 <==> old(next) == |Lines(data)|
      ensures old(next) < |Lines(data)| ==> raw == Lines(data)[old(next)] && next == old(next) + 1
      ensures old(next) == |Lines(data)| ==> next == old(next) && pos == old(pos)
    {
      var n := LineLen(data[pos..]);
      ReadStep(data, pos, next);
      raw := data[pos..pos + n];
      if n > 0 {
        pos := pos + n;
        next := next + 1;
      }
    }

    /** `rewind`: back to the first line. */
    method Rewind()
      requires Valid()
      modifies this
      ensures Valid() && pos == 0 && next == 0
    {
      pos := 0;
      next := 0;
      assert data[0..] == data;
    }
  }

  /** Reading one line at a reader position that is in step with line `next`. */
  lemma {:induction false} ReadStep(data: seq<Byte>, pos: nat, next: nat)
    requires pos <= |data| && next <= |Lines(data)| && Lines(data[pos..]) == Lines(data)[next..]
    ensures LineLen(data[pos..]) == 0 <==> next == |Lines(data)|
    ensures LineLen(data[pos..]) > 0 ==>
      data[pos..pos + LineLen(data[pos..])] == Lines(data)[next] &&
      Lines(data[pos + LineLen(data[pos..])..]) == Lines(data)[next + 1..]
  {
    var n := LineLen(data[pos..]);
    if pos < |data| {
      var line, tail := data[pos..pos + n], Lines(data[pos + n..]);
      assert 0 < n && Lines(data[pos..]) == [line] + tail by {
        LinesFrom(data, pos);
      }
      SuffixAfterHead(Lines(data), next, line, tail);
    } else {
      assert data[pos..] == [];
    }
  }

  /** The lines from a byte offset inside `s`: the line starting there, then the rest. */
  lemma {:induction false} LinesFrom(s: seq<Byte>, pos: nat)
    requires pos < |s|
    ensures LineLen(s[pos..]) > 0
    ensures Lines(s[pos..]) == [s[pos..pos + LineLen(s[pos..])]] + Lines(s[pos + LineLen(s[pos..])..])
  {
    var rest := s[pos..];
    var n := LineLen(rest);
    assert rest[..n] == s[pos..pos + n];
    assert rest[n..] == s[pos + n..];
  }

  lemma {:induction false} SuffixAfterHead<T>(xs: seq<T>, i: nat, x: T, tail: seq<T>)
    requires i <= |xs| && xs[i..] == [x] + tail
    ensures i < |xs| && xs[i] == x && xs[i + 1..] == tail
  {
    assert xs[i..][0] == x;
    assert xs[i + 1..] == xs[i..][1..];
  }

  /** Nothing is lost or added by the split: the lines put back together are the file. */
  lemma {:induction false} LinesConcat(s: seq<Byte>)
    ensures Concat(Lines(s)) == s
    decreases |s|
  {
    if s != [] {
      var n := LineLen(s);
      LinesConcat(s[n..]);
      assert s == s[..n] + s[n..];
    }
  }

  /** The first line: no '\n' before its last byte, and its last byte is '\n' unless it reaches the end of `s`. */
  lemma {:induction false} LineLenShape(s: seq<Byte>)
    ensures forall k :: 0 <= k < LineLen(s) - 1 ==> s[k] != NEWLINE
    ensures 0 < LineLen(s) < |s| ==> s[LineLen(s) - 1] == NEWLINE
    ensures LineLen(s) == |s| && s != [] && s[|s| - 1] != NEWLINE ==> forall k :: 0 <= k < |s| ==> s[k] != NEWLINE
  {
    if s != [] && s[0] != NEWLINE {
      LineLenShape(s[1..]);
    }
  }

  /** Every line holds exactly one '\n', as its last byte, except a last line that
      runs to the end of a file not ending in '\n', which holds none. */
  lemma {:induction false} LinesShape(s: seq<Byte>)
    ensures forall i, k :: 0 <= i < |Lines(s)| && 0 <= k < |Lines(s)[i]| - 1 ==> Lines(s)[i][k] != NEWLINE
    ensures forall i :: 0 <= i < |Lines(s)| - 1 ==> Lines(s)[i][|Lines(s)[i]| - 1] == NEWLINE
    ensures s != [] && s[|s| - 1] == NEWLINE ==> forall i :: 0 <= i < |Lines(s)| ==> Lines(s)[i][|Lines(s)[i]| - 1] == NEWLINE
    decreases |s|
  {
    if s != [] {
      var n := LineLen(s);
      LineLenShape(s);
      LinesShape(s[n..]);
      if n == |s| {
        assert s[n..] == [];
      } else {
        assert s[n..][|s[n..]| - 1] == s[|s| - 1];
      }
    }
  }

  /** The number of lines is the number of '\n' bytes, plus one for a last line without one. */
  lemma {:induction false} LinesCount(s: seq<Byte>)
    ensures |Lines(s)| == NewlineCount(s) + if s != [] && s[|s| - 1] != NEWLINE then 1 else 0
    decreases |s|
  {
    if s != [] {
      var n := LineLen(s);
      var head, tail := s[..n], s[n..];
      var endsOpen := s[|s| - 1] != NEWLINE;
      assert |Lines(s)| == 1 + |Lines(tail)|;
      assert |Lines(tail)| == NewlineCount(tail) + if tail != [] && endsOpen then 1 else 0 by {
        LinesCount(tail);
        if tail != [] {
          assert tail[|tail| - 1] == s[|s| - 1];
        }
      }
      assert NewlineCount(s) == NewlineCount(head) + NewlineCount(tail) by {
        assert s == head + tail;
        NewlineCountAppend(head, tail);
      }
      assert NewlineCount(head) == if tail != [] || !endsOpen then 1 else 0 by {
        HeadNewlines(s);
      }
    }
  }

  /** The first line holds one '\n' when more bytes follow it or it ends in '\n', and none otherwise. */
  lemma {:induction false} HeadNewlines(s: seq<Byte>)
    requires s != []
    ensures NewlineCount(s[..LineLen(s)]) == if LineLen(s) < |s| || s[|s| - 1] == NEWLINE then 1 else 0
  {
    var n := LineLen(s);
    LineLenShape(s);
    NewlineCountOfLine(s[..n]);
  }

  function NewlineCount(s: seq<Byte>): nat {
    if s == [] then 0 else NewlineCount(s[..|s| - 1]) + if s[|s| - 1] == NEWLINE then 1 else 0
  }

  lemma {:induction false} NewlineCountAppend(a: seq<Byte>, b: seq<Byte>)
    ensures NewlineCount(a + b) == NewlineCount(a) + NewlineCount(b)
  {
    if b == [] {
      assert a + b == a;
    } else {
      assert (a + b)[..|a + b| - 1] == a + b[..|b| - 1];
      NewlineCountAppend(a, b[..|b| - 1]);
    }
  }

  /** A line holds one '\n' if it ends with one, else none. */
  lemma {:induction false} NewlineCountOfLine(line: seq<Byte>)
    requires forall k :: 0 <= k < |line| - 1 ==> line[k] != NEWLINE
    ensures NewlineCount(line) == if line != [] && line[|line| - 1] == NEWLINE then 1 else 0
  {
    if line != [] {
      NoNewlines(line[..|line| - 1]);
    }
  }

  lemma {:induction false} NoNewlines(s: seq<Byte>)
    requires forall k :: 0 <= k < |s| ==> s[k] != NEWLINE
    ensures NewlineCount(s) == 0
  {
    if s != [] {
      NoNewlines(s[..|s| - 1]);
    }
  }
}

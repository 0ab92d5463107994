/**
 * The hotkey activation engine: the startup loop that skips the lines already
 * used, and the body of the Ctrl+Alt+X handler in `poll_event`, which reads the
 * next line, drops its last byte and hands the text to the keystroke or the
 * clipboard output, or at the end of the file resets the counter and rewinds.
 *
 * `Step` and `Run` state the behaviour on an abstract `Progress`; the class
 * `Session` is the in-place version over a `LineReader` and is proved to
 * follow `Step` exactly.
 */
module Activation {
  import opened Base
  import opened LineSource

  /** What one activation hands to the output side: `type_out_characters` or `set_clipboard_string`. */
  datatype Effect = TypeOut(text: seq<Byte>) | SetClipboard(text: seq<Byte>)

  /** The abstract state: the index of the next line `read_line` returns, and the counter `lines_to_skip`. */
  datatype Progress = Progress(next: nat, cursor: nat)

  /** `&buffer[..size - 1]`: the line without its last byte. */
  function Chomp(raw: seq<Byte>): seq<Byte>
    requires raw != []
  {
    raw[..|raw| - 1]
  }

  function Emit(useClipboard: bool, text: seq<Byte>): Effect {
    if useClipboard then SetClipboard(text) else TypeOut(text)
  }

  /** The state after startup: `k` calls of `read_until` past the start of the file, counter `k`. */
  function Startup(words: seq<Byte>, k: nat): Progress {
    Progress(Min(k, |Lines(words)|), k)
  }

  /** One hotkey activation. */
  function Step(words: seq<Byte>, useClipboard: bool, p: Progress): (r: (Progress, Option<Effect>))
    requires p.next <= |Lines(words)|
    ensures r.0.next <= |Lines(words)|
  {
    if p.next == |Lines(words)| then (Progress(0, 0), None)
    else (Progress(p.next + 1, p.cursor + 1), Some(Emit(useClipboard, Chomp(Lines(words)[p.next]))))
  }

  /** `n` activations in a row: the final state and what each activation emitted. */
  function Run(words: seq<Byte>, useClipboard: bool, p: Progress, n: nat): (r: (Progress, seq<Option<Effect>>))
    requires p.next <= |Lines(words)|
    ensures r.0.next <= |Lines(words)| && |r.1| == n
    decreases n
  {
    if n == 0 then (p, [])
    else
      var (q, out) := Step(words, useClipboard, p);
      var (q', outs) := Run(words, useClipboard, q, n - 1);
      (q', [out] + outs)
  }

  /** The counter agrees with the reader: it counts the lines read, except after a
      startup that asked to skip more lines than the file has, when the reader
      sits at the end and the counter keeps its larger value. */
  ghost predicate InSync(words: seq<Byte>, p: Progress) {
    p.next <= |Lines(words)| &&
    (p.cursor == p.next || (p.next == |Lines(words)| && p.cursor > p.next))
  }

  /** What the activations from line `i` to the end of the file emit, in order. */
  function Emissions(words: seq<Byte>, useClipboard: bool, i: nat): (es: seq<Option<Effect>>)
    requires i <= |Lines(words)|
    ensures |es| == |Lines(words)| - i
    decreases |Lines(words)| - i
  {
    if i == |Lines(words)| then []
    else [Some(Emit(useClipboard, Chomp(Lines(words)[i])))] + Emissions(words, useClipboard, i + 1)
  }

  /** The in-place engine: the `BufReader` over `words.txt`, the output choice and `lines_to_skip`. */
  class Session {
    const reader: LineReader
    const useClipboard: bool
    var linesToSkip: nat

    ghost function State(): Progress
      reads this, reader
    {
      Progress(reader.next, linesToSkip)
    }

    ghost predicate Valid()
      reads this, reader
    {
      reader.Valid() && InSync(reader.data, State())
    }

    /** Startup: open the word list and read past `linesToSkip` lines; reading past the end is not an error. */
    constructor (words: seq<Byte>, linesToSkip: nat, useClipboard: bool)
      ensures Valid() && fresh(reader)
      ensures reader.data == words && this.useClipboard == useClipboard
      ensures State() == Startup(words, linesToSkip)
    {
      var r := new LineReader(words);
      for i := 0 to linesToSkip
        invariant r.Valid() && r.data == words
        invariant r.next == Min(i, |Lines(words)|)
      {
        var _ := r.ReadLine();
      }
      reader := r;
      this.linesToSkip := linesToSkip;
      this.useClipboard := useClipboard;
    }

    /** One Ctrl+Alt+X activation. */
    method Activate() returns (effect: Option<Effect>)
      requires Valid()
      modifies this, reader
      ensures Valid()
      ensures (State(), effect) == Step(reader.data, useClipboard, old(State()))
      ensures linesToSkip <= |Lines(reader.data)|
    {
      var line := reader.ReadLine();
      if |line| == 0 {
        linesToSkip := 0;
        reader.Rewind();
        effect := None;
      } else {
        var lineSlice := line[..|line| - 1];
        linesToSkip := linesToSkip + 1;
        effect := Some(Emit(useClipboard, lineSlice));
      }
    }
  }

  /** Startup leaves the counter and the reader in step, and the counter is the requested one. */
  lemma {:induction false} StartupInSync(words: seq<Byte>, k: nat)
    ensures InSync(words, Startup(words, k))
    ensures Startup(words, k).cursor == k
    ensures k <= |Lines(words)| ==> Startup(words, k).next == k
  {
  }

  /** An activation keeps the counter and the reader in step, and afterwards the
      counter is at most the number of lines. */
  lemma {:induction false} StepInSync(words: seq<Byte>, useClipboard: bool, p: Progress)
    requires InSync(words, p)
    ensures InSync(words, Step(words, useClipboard, p).0)
    ensures Step(words, useClipboard, p).0.cursor <= |Lines(words)|
  {
  }

  /** A line read: the counter goes up by one, the reader moves one line on, and
      the line minus its last byte is emitted; at the end of the file: the counter
      goes to 0, the reader goes back to line 0, nothing is emitted. */
  lemma {:induction false} StepCases(words: seq<Byte>, useClipboard: bool, p: Progress)
    requires p.next <= |Lines(words)|
    ensures var (q, out) := Step(words, useClipboard, p);
      if p.next < |Lines(words)| then
        q.cursor == p.cursor + 1 && q.next == p.next + 1 && out.Some? &&
        out.value.text + [Lines(words)[p.next][|Lines(words)[p.next]| - 1]] == Lines(words)[p.next] &&
        out.value.SetClipboard? == useClipboard
      else
        q == Progress(0, 0) && out == None
  {
    if p.next < |Lines(words)| {
      var line := Lines(words)[p.next];
      assert line == line[..|line| - 1] + [line[|line| - 1]];
    }
  }

  /** From line `i` in step, activations emit the remaining lines in order, then one
      activation emits nothing and returns to line 0 with the counter at 0. */
  lemma {:induction false} RunToWrap(words: seq<Byte>, useClipboard: bool, i: nat)
    requires i <= |Lines(words)|
    ensures Run(words, useClipboard, Progress(i, i), |Lines(words)| - i + 1)
         == (Progress(0, 0), Emissions(words, useClipboard, i) + [None])
    decreases |Lines(words)| - i
  {
    var L := |Lines(words)|;
    if i < L {
      RunToWrap(words, useClipboard, i + 1);
      var e := Some(Emit(useClipboard, Chomp(Lines(words)[i])));
      var (q, out) := Step(words, useClipboard, Progress(i, i));
      assert q == Progress(i + 1, i + 1) && out == e;
      var n := L - i + 1;
      assert n - 1 == L - (i + 1) + 1;
      var (q', outs) := Run(words, useClipboard, q, n - 1);
      assert Run(words, useClipboard, Progress(i, i), n) == (q', [out] + outs);
      assert Emissions(words, useClipboard, i) == [e] + Emissions(words, useClipboard, i + 1);
      assert [e] + (Emissions(words, useClipboard, i + 1) + [None])
          == Emissions(words, useClipboard, i) + [None];
    } else {
      var (q, out) := Step(words, useClipboard, Progress(i, i));
      var (q', outs) := Run(words, useClipboard, q, 0);
      assert Run(words, useClipboard, Progress(i, i), L - i + 1) == (q', [out] + outs);
      assert [out] + outs == Emissions(words, useClipboard, i) + [None];
    }
  }

  /** On a file of L lines, L + 1 activations from the start emit lines 1 to L in
      order, then nothing, and leave the engine back at the start. */
  lemma {:induction false} FullCycle(words: seq<Byte>, useClipboard: bool)
    ensures var L := |Lines(words)|;
      var (q, outs) := Run(words, useClipboard, Progress(0, 0), L + 1);
      q == Progress(0, 0) && outs[L] == None &&
      forall i :: 0 <= i < L ==> outs[i] == Some(Emit(useClipboard, Chomp(Lines(words)[i])))
  {
    RunToWrap(words, useClipboard, 0);
    EmissionsAt(words, useClipboard, 0);
  }

  lemma {:induction false} EmissionsAt(words: seq<Byte>, useClipboard: bool, i: nat)
    requires i <= |Lines(words)|
    ensures forall j :: i <= j < |Lines(words)| ==>
      Emissions(words, useClipboard, i)[j - i] == Some(Emit(useClipboard, Chomp(Lines(words)[j])))
    decreases |Lines(words)| - i
  {
    if i < |Lines(words)| {
      EmissionsAt(words, useClipboard, i + 1);
    }
  }

  /** Activations compose: `a + b` activations are `a` followed by `b`. */
  lemma {:induction false} RunSplit(words: seq<Byte>, useClipboard: bool, p: Progress, a: nat, b: nat)
    requires p.next <= |Lines(words)|
    ensures var (q, outs) := Run(words, useClipboard, p, a);
      var (r, outs') := Run(words, useClipboard, q, b);
      Run(words, useClipboard, p, a + b) == (r, outs + outs')
    decreases a
  {
    if a > 0 {
      var (q, out) := Step(words, useClipboard, p);
      var (q1, outs1) := Run(words, useClipboard, q, a - 1);
      var (r, outs2) := Run(words, useClipboard, q1, b);
      assert Run(words, useClipboard, q, a + b - 1) == (r, outs1 + outs2) by {
        RunSplit(words, useClipboard, q, a - 1, b);
        assert a + b - 1 == a - 1 + b;
      }
      assert Run(words, useClipboard, p, a) == (q1, [out] + outs1);
      assert Run(words, useClipboard, p, a + b) == (r, [out] + (outs1 + outs2));
      assert [out] + (outs1 + outs2) == ([out] + outs1) + outs2;
    } else {
      var (r, outs') := Run(words, useClipboard, p, b);
      assert [] + outs' == outs';
    }
  }

  /** Cycles repeat: after any number of full cycles the engine is back at the start. */
  lemma {:induction false} CyclesRepeat(words: seq<Byte>, useClipboard: bool, m: nat)
    ensures Run(words, useClipboard, Progress(0, 0), m * (|Lines(words)| + 1)).0 == Progress(0, 0)
  {
    if m > 0 {
      var L := |Lines(words)|;
      var rest := (m - 1) * (L + 1);
      assert m * (L + 1) == (L + 1) + rest by {
        PeelFactor(m, L + 1);
      }
      assert Run(words, useClipboard, Progress(0, 0), L + 1).0 == Progress(0, 0) by {
        RunToWrap(words, useClipboard, 0);
      }
      RunSplit(words, useClipboard, Progress(0, 0), L + 1, rest);
      CyclesRepeat(words, useClipboard, m - 1);
    }
  }

  lemma {:induction false} PeelFactor(m: nat, k: nat)
    requires 0 < m
    ensures m * k == k + (m - 1) * k
  {
  }

  /** After startup with counter `k`, the first activation emits line `k + 1` when the
      file has that many lines; otherwise it emits nothing and wraps to the start. */
  lemma {:induction false} ResumeAfterStartup(words: seq<Byte>, useClipboard: bool, k: nat)
    ensures var (q, out) := Step(words, useClipboard, Startup(words, k));
      if k < |Lines(words)| then
        out == Some(Emit(useClipboard, Chomp(Lines(words)[k]))) && q == Progress(k + 1, k + 1)
      else
        out == None && q == Progress(0, 0)
  {
  }

  /** The emitted text never holds '\n'. It is the whole line without its '\n' for
      every line that has one; the last line of a file that does not end in '\n'
      loses its final character instead. */
  lemma {:induction false} EmittedText(words: seq<Byte>, i: nat)
    requires i < |Lines(words)|
    ensures forall k :: 0 <= k < |Chomp(Lines(words)[i])| ==> Chomp(Lines(words)[i])[k] != NEWLINE
    ensures i < |Lines(words)| - 1 || words[|words| - 1] == NEWLINE ==>
      Chomp(Lines(words)[i]) + [NEWLINE] == Lines(words)[i]
    ensures i == |Lines(words)| - 1 && words[|words| - 1] != NEWLINE ==>
      Chomp(Lines(words)[i]) + [words[|words| - 1]] == Lines(words)[i]
  {
    var line := Lines(words)[i];
    assert line == Chomp(line) + [line[|line| - 1]];
    assert forall k :: 0 <= k < |line| - 1 ==> line[k] != NEWLINE by {
      LinesShape(words);
    }
    if i < |Lines(words)| - 1 || words[|words| - 1] == NEWLINE {
      assert line[|line| - 1] == NEWLINE by {
        LinesShape(words);
      }
    }
    if i == |Lines(words)| - 1 {
      assert words[|words| - 1] == line[|line| - 1] by {
        LinesConcat(words);
        LastLineEndsFile(Lines(words));
      }
    }
  }

  /** The last byte of a file is the last byte of its last line. */
  lemma {:induction false} LastLineEndsFile(ls: seq<seq<Byte>>)
    requires ls != [] && ls[|ls| - 1] != []
    ensures Concat(ls) != []
    ensures Concat(ls)[|Concat(ls)| - 1] == ls[|ls| - 1][|ls[|ls| - 1]| - 1]
  {
    if |ls| > 1 {
      LastLineEndsFile(ls[1..]);
      assert ls[1..][|ls| - 2] == ls[|ls| - 1];
    }
  }
}

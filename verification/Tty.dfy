/** tty/tty.c: the ring buffer between the keyboard and the blocking line reader. */
module Tty {
  import opened Machine
  import opened Wrappers

  const TTY_BUFFER_SIZE: nat := 256
  const BACKSPACE: char := '\U{8}'

  // ---------------------------------------------------------------- the bounded deque

  /** What one key press does to the buffered characters: backspace removes the last one, anything else is appended
      unless the buffer is full. */
  function Typed(q: seq<char>, c: char): (r: seq<char>)
    ensures |q| <= TTY_BUFFER_SIZE ==> |r| <= TTY_BUFFER_SIZE
  {
    if c == BACKSPACE then (if q == [] then [] else q[..|q| - 1])
    else if |q| < TTY_BUFFER_SIZE then q + [c]
    else q
  }

  /** The length of the first line, its newline included; everything when there is none. */
  function LineLength(q: seq<char>): (n: nat)
    ensures n <= |q|
    ensures '\n' !in q[..n] || (n > 0 && q[n - 1] == '\n' && '\n' !in q[..n - 1])
    ensures n < |q| ==> '\n' in q[..n]
  {
    if q == [] then 0 else if q[0] == '\n' then 1 else 1 + LineLength(q[1..])
  }

  /** The bytes tty_read copies at most: size - 1 in 64-bit arithmetic. */
  function Limit(size: nat): nat {
    if size == 0 then WORD - 1 else size - 1
  }

  /** What a read of a buffer with a complete line returns, and what it leaves. */
  function Line(q: seq<char>, size: nat): seq<char> {
    q[..Min(LineLength(q), Limit(size))]
  }

  /** The buffer cell of the i-th character after position r. */
  function Slot(r: nat, i: nat): (k: nat)
    ensures k < TTY_BUFFER_SIZE
  {
    (r + i) % TTY_BUFFER_SIZE
  }

  class Tty {
    const buffer: array<char>
    var readPos: nat
    var writePos: nat
    var count: nat
    var waiting: bool
    ghost var contents: seq<char>

    ghost predicate Valid()
      reads this, buffer
    {
      && buffer.Length == TTY_BUFFER_SIZE
      && readPos < TTY_BUFFER_SIZE && count <= TTY_BUFFER_SIZE
      && writePos == (readPos + count) % TTY_BUFFER_SIZE
      && |contents| == count
      && forall i :: 0 <= i < count ==> contents[i] == buffer[Slot(readPos, i)]
    }

    /** The state of the reader protocol: the reader is blocked while it is registered as the waiting task. */
    ghost function View(): Sys
      reads this
    {
      Sys(contents, if waiting then Blocked else Checking)
    }

    /** tty_init */
    constructor ()
      ensures Valid() && View() == Sys([], Checking) && fresh(buffer)
    {
      buffer := new char[TTY_BUFFER_SIZE](_ => '\0');
      readPos, writePos, count, waiting := 0, 0, 0, false;
      contents := [];
    }

    /** tty_input_char; `woken` says whether the waiting task is unblocked. */
    method InputChar(c: char) returns (woken: bool)
      requires Valid()
      modifies this, buffer
      ensures Valid() && contents == Typed(old(contents), c) && View() == Step(old(View()), Key(c)).0
      ensures woken <==> c == '\n' && old(waiting)
    {
      woken := false;
      if c == BACKSPACE {
        if count > 0 {
          DropLast();
        }
        return;
      }
      if count < TTY_BUFFER_SIZE {
        Append(c);
      }
      if c == '\n' && waiting {
        waiting := false;
        woken := true;
      }
    }

    method DropLast()
      requires Valid() && count > 0
      modifies this
      ensures Valid() && contents == old(contents)[..|old(contents)| - 1] && waiting == old(waiting)
    {
      writePos := (writePos + TTY_BUFFER_SIZE - 1) % TTY_BUFFER_SIZE;
      count := count - 1;
      contents := contents[..|contents| - 1];
      OneBack(readPos, count);
    }

    method Append(c: char)
      requires Valid() && count < TTY_BUFFER_SIZE
      modifies this, buffer
      ensures Valid() && contents == old(contents) + [c] && waiting == old(waiting)
    {
      forall i | 0 <= i < count
        ensures Slot(readPos, i) != writePos
      {
        DistinctSlots(readPos, i, count);
      }
      buffer[writePos] := c;
      writePos := (writePos + 1) % TTY_BUFFER_SIZE;
      count := count + 1;
      contents := contents + [c];
      OneOn(readPos, count - 1);
    }

    /** The scan of tty_read for a complete line. */
    method HasLine() returns (b: bool)
      requires Valid()
      ensures b <==> '\n' in contents
    {
      var pos := readPos;
      var checked := 0;
      while checked < count
        invariant checked <= count && pos == Slot(readPos, checked)
        invariant forall j :: 0 <= j < checked ==> contents[j] != '\n'
      {
        assert contents[checked] == buffer[pos];
        if buffer[pos] == '\n' {
          return true;
        }
        OneOn(readPos, checked);
        pos := (pos + 1) % TTY_BUFFER_SIZE;
        checked := checked + 1;
      }
      return false;
    }

    /** tty_read from one check for a line to the next: the reader blocks, or reads and is done. A blocked reader does
        not run. */
    method Read(size: nat) returns (r: Option<seq<char>>)
      requires Valid()
      modifies this
      ensures Valid() && (View(), r) == Step(old(View()), Reads(size))
    {
      if waiting {
        return None;
      }
      var line := HasLine();
      if !line {
        waiting := true;
        return None;
      }
      var out := ReadLine(size);
      return Some(out);
    }

    /** Takes the first buffered character. */
    method Next() returns (c: char)
      requires Valid() && count > 0
      modifies this
      ensures Valid() && c == old(contents)[0] && contents == old(contents)[1..] && waiting == old(waiting)
    {
      c := buffer[readPos];
      readPos := (readPos + 1) % TTY_BUFFER_SIZE;
      count := count - 1;
      contents := contents[1..];
    }

    /** The copying loop of tty_read. */
    method ReadLine(size: nat) returns (out: seq<char>)
      requires Valid()
      modifies this
      ensures Valid() && out == Line(old(contents), size) && contents == old(contents)[|out|..]
      ensures waiting == old(waiting)
    {
      ghost var q := contents;
      out := [];
      while count > 0 && |out| < Limit(size)
        invariant Valid() && |out| <= |q| && out == q[..|out|] && contents == q[|out|..]
        invariant '\n' !in out && |out| <= Limit(size) && waiting == old(waiting)
        decreases count
      {
        ghost var n := |out|;
        var c := Next();
        out := out + [c];
        assert out == q[..n + 1];
        if c == '\n' {
          LineEnds(q, n);
          return;
        }
      }
      NoLineYet(q, |out|);
    }
  }

  lemma DistinctSlots(r: nat, i: nat, j: nat)
    requires r < 256 && i < j < 256
    ensures (r + i) % 256 != (r + j) % 256
  {
  }

  lemma OneBack(r: nat, n: nat)
    requires r < 256 && n < 256
    ensures ((r + n + 1) % 256 + 255) % 256 == (r + n) % 256
  {
  }

  lemma OneOn(r: nat, n: nat)
    requires r < 256 && n < 256
    ensures ((r + n) % 256 + 1) % 256 == (r + n + 1) % 256
  {
  }

  lemma {:induction false} LineEnds(q: seq<char>, n: nat)
    requires n < |q| && '\n' !in q[..n] && q[n] == '\n'
    ensures LineLength(q) == n + 1
  {
    if n > 0 {
      assert q[0] in q[..n];
      assert q[1..][..n - 1] == q[..n][1..];
      LineEnds(q[1..], n - 1);
    }
  }

  lemma {:induction false} NoLineYet(q: seq<char>, n: nat)
    requires n <= |q| && '\n' !in q[..n]
    ensures LineLength(q) >= n
  {
    if n > 0 {
      assert q[0] in q[..n];
      assert q[1..][..n - 1] == q[..n][1..];
      NoLineYet(q[1..], n - 1);
    }
  }

  // ---------------------------------------------------------------- the reader protocol

  /** The one reader: running the check of tty_read, or blocked with itself registered as the waiting task. */
  datatype Reader = Checking | Blocked

  datatype Sys = Sys(q: seq<char>, reader: Reader)

  datatype Event = Key(c: char) | Reads(size: nat)

  /** A key press is atomic; so is the reader's check followed by blocking or by the copy. A newline wakes a blocked
      reader, stored or not. */
  function Step(s: Sys, e: Event): (Sys, Option<seq<char>>) {
    match e
    case Key(c) => (Sys(Typed(s.q, c), if c == '\n' then Checking else s.reader), None)
    case Reads(size) =>
      if s.reader == Blocked then (s, None)
      else if '\n' !in s.q then (Sys(s.q, Blocked), None)
      else (Sys(s.q[|Line(s.q, size)|..], Checking), Some(Line(s.q, size)))
  }

  predicate Inv(s: Sys) {
    |s.q| <= TTY_BUFFER_SIZE && (s.reader == Blocked ==> '\n' !in s.q)
  }

  function Run(s: Sys, es: seq<Event>): Sys
    decreases |es|
  {
    if es == [] then s else Run(Step(s, es[0]).0, es[1..])
  }

  /** No wake-up is lost: over every run, the reader is never blocked while a complete line is buffered. */
  lemma {:induction false} NeverBlockedWithLine(s: Sys, es: seq<Event>)
    requires Inv(s)
    ensures Inv(Run(s, es))
    decreases |es|
  {
    if es != [] {
      StepKeeps(s, es[0]);
      NeverBlockedWithLine(Step(s, es[0]).0, es[1..]);
    }
  }

  lemma StepKeeps(s: Sys, e: Event)
    requires Inv(s)
    ensures Inv(Step(s, e).0)
  {
    if e.Key? && e.c == BACKSPACE && s.q != [] {
      assert forall c :: c in s.q[..|s.q| - 1] ==> c in s.q;
    }
  }

  /** A completed read returns a prefix of what was typed: up to the first newline, or size - 1 characters. */
  lemma ReadIsPrefix(s: Sys, size: nat)
    requires Step(s, Reads(size)).1.Some?
    ensures var (s', r) := Step(s, Reads(size));
            && r.value + s'.q == s.q
            && (size > 0 ==> |r.value| <= size - 1)
            && '\n' !in r.value[..if |r.value| == 0 then 0 else |r.value| - 1]
            && ((r.value != [] && r.value[|r.value| - 1] == '\n') ||
                (if size > 0 then |r.value| == size - 1 else |r.value| == WORD - 1))
  {
    var n := LineLength(s.q);
    var m := |Line(s.q, size)|;
    assert s.q[..n][..m] == s.q[..m];
    assert s.q[..|s.q|] == s.q;
    if m < n {
      assert forall c :: c in s.q[..m] ==> c in s.q[..n - 1];
    }
  }

  /** A typed newline lets the next read complete if and only if the buffer has room for it, or holds a line already. */
  lemma NewlineCompletesIff(s: Sys, size: nat)
    ensures Step(Step(s, Key('\n')).0, Reads(size)).1.Some? <==> |s.q| < TTY_BUFFER_SIZE || '\n' in s.q
  {
  }

  /** A backspace takes back the last character typed; a full buffer takes none. */
  lemma BackspaceUndoes(q: seq<char>, c: char)
    requires c != BACKSPACE
    ensures |q| < TTY_BUFFER_SIZE ==> Typed(Typed(q, c), BACKSPACE) == q && |Typed(q, c)| == |q| + 1
    ensures |q| >= TTY_BUFFER_SIZE ==> Typed(q, c) == q
  {
  }

  /** Ordinary characters. */
  predicate Plain(text: seq<char>) {
    forall i :: 0 <= i < |text| ==> text[i] != BACKSPACE && text[i] != '\n'
  }

  function Keys(text: seq<char>): (es: seq<Event>)
    ensures |es| == |text| && forall i :: 0 <= i < |text| ==> es[i] == Key(text[i])
  {
    seq(|text|, i requires 0 <= i < |text| => Key(text[i]))
  }

  /** Text that fits is buffered as typed, and wakes nobody. */
  lemma {:induction false} TextIsBuffered(s: Sys, text: seq<char>)
    requires Plain(text) && |s.q| + |text| <= TTY_BUFFER_SIZE
    ensures Run(s, Keys(text)) == Sys(s.q + text, s.reader)
    decreases |text|
  {
    if text == [] {
      assert s.q + text == s.q;
    } else {
      var s1 := Step(s, Key(text[0])).0;
      assert Keys(text)[1..] == Keys(text[1..]);
      TextIsBuffered(s1, text[1..]);
      assert s.q + [text[0]] + text[1..] == s.q + text;
    }
  }

  /** A line of at most 255 characters typed to an idle terminal, waiting or not, is what the next read returns, newline
      included, when its buffer is large enough; nothing is left over. */
  lemma LineArrives(line: seq<char>, reader: Reader, size: nat)
    requires Plain(line) && |line| < TTY_BUFFER_SIZE && size > |line| + 1
    ensures var typed := Step(Run(Sys([], reader), Keys(line)), Key('\n')).0;
            Step(typed, Reads(size)) == (Sys([], Checking), Some(line + ['\n']))
  {
    TextIsBuffered(Sys([], reader), line);
    assert [] + line == line;
    LineReads(line, line + ['\n'], size);
  }

  lemma LineReads(line: seq<char>, q: seq<char>, size: nat)
    requires Plain(line) && q == line + ['\n'] && size > |line| + 1
    ensures Step(Sys(q, Checking), Reads(size)) == (Sys([], Checking), Some(q))
  {
    assert q[..|line|] == line && q[|line|] == '\n';
    LineEnds(q, |line|);
    assert q[..|q|] == q && q[|q|..] == [];
  }

  predicate NoBackspace(es: seq<Event>) {
    forall i :: 0 <= i < |es| ==> es[i] != Key(BACKSPACE)
  }

  /** A full buffer without a newline is a trap: until a backspace is typed, no run buffers a newline or completes a
      read, however many newlines are typed. */
  lemma {:induction false} FullBufferTrap(s: Sys, es: seq<Event>, size: nat)
    requires |s.q| == TTY_BUFFER_SIZE && '\n' !in s.q && NoBackspace(es)
    ensures Run(s, es).q == s.q && Step(Run(s, es), Reads(size)).1 == None
    decreases |es|
  {
    if es != [] {
      assert es[0] != Key(BACKSPACE);
      FullBufferTrap(Step(s, es[0]).0, es[1..], size);
    }
  }
}

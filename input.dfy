/** The NEXT_LINE macro of radsnmp_send_recv: fgets from stdin into a buffer
  * of a given size, with one trailing newline removed. Standard input is
  * modelled as the characters not yet read; it holds no NUL characters. */
module LineInput {
  import opened Wrappers

  /** Sizes of the two buffers NEXT_LINE reads into: `buffer` and the value
    * buffer of a set. */
  const LINE_BUFF: nat := 256
  const SET_VALUE_BUFF: nat := 254

  /** How many characters fgets takes from `s` when `n` are already taken and
    * at most `max` may be: up to and including the first newline. */
  function ChunkFrom(s: string, n: nat, max: nat): (k: nat)
    requires n <= |s| && n <= max
    ensures n <= k <= |s| && k <= max
    decreases |s| - n
  {
    if n == max || n == |s| then n
    else if s[n] == '\n' then n + 1
    else ChunkFrom(s, n + 1, max)
  }

  /** fgets(buffer, size, stdin) followed by the removal of a trailing
    * newline: the line read (None at end of input) and what is left. */
  function Fgets(s: string, size: nat): (Option<string>, string)
    requires size >= 2
  {
    if s == [] then (None, s)
    else
      var k := ChunkFrom(s, 0, size - 1);
      var chunk := s[..k];
      (Some(if k > 0 && chunk[k - 1] == '\n' then chunk[..k - 1] else chunk), s[k..])
  }

  /** The characters taken stop after the first newline or at `max`. */
  lemma {:induction false} ChunkFromStops(s: string, n: nat, max: nat)
    requires n <= |s| && n <= max
    requires forall i :: 0 <= i < n ==> s[i] != '\n'
    ensures var k := ChunkFrom(s, n, max);
            && (forall i :: 0 <= i < k - 1 ==> s[i] != '\n')
            && (k == |s| || k == max || (k > 0 && s[k - 1] == '\n'))
    decreases |s| - n
  {
    if n < max && n < |s| && s[n] != '\n' {
      ChunkFromStops(s, n + 1, max);
    }
  }

  /** Reading consumes a prefix of the input: the line read, then possibly
    * the newline that ended it. The line holds no newline and has fewer
    * characters than the buffer. */
  lemma FgetsSplits(s: string, size: nat)
    requires size >= 2
    ensures var (line, rest) := Fgets(s, size);
            && (line.None? <==> s == [])
            && (line.Some? ==>
                  && |line.value| < size
                  && (s == line.value + rest || s == line.value + "\n" + rest)
                  && forall i :: 0 <= i < |line.value| ==> line.value[i] != '\n')
  {
    if s != [] {
      ChunkFromStops(s, 0, size - 1);
      var k := ChunkFrom(s, 0, size - 1);
      if k > 0 && s[k - 1] == '\n' {
        assert s == s[..k - 1] + "\n" + s[k..];
      } else {
        assert s == s[..k] + s[k..];
      }
    }
  }

  /** A line shorter than the buffer, ended by a newline, is read whole. */
  lemma FgetsLine(line: string, rest: string, size: nat)
    requires size >= 2 && |line| < size - 1
    requires forall i :: 0 <= i < |line| ==> line[i] != '\n'
    ensures Fgets(line + "\n" + rest, size) == (Some(line), rest)
  {
    var s := line + "\n" + rest;
    ChunkFromTo(s, 0, size - 1, |line|);
    assert s[..|line| + 1][..|line|] == line;
    assert s[|line| + 1..] == rest;
  }

  lemma {:induction false} ChunkFromTo(s: string, n: nat, max: nat, e: nat)
    requires n <= e < |s| && e < max && s[e] == '\n'
    requires forall i :: n <= i < e ==> s[i] != '\n'
    ensures ChunkFrom(s, n, max) == e + 1
    decreases e - n
  {
    if n < e {
      ChunkFromTo(s, n + 1, max, e);
    }
  }

  /** The standard input radsnmp reads its commands from. */
  class Stdin {
    var rest: string

    constructor (text: string)
      ensures rest == text
    {
      rest := text;
    }

    /** NEXT_LINE into a buffer of `size` bytes. */
    method NextLine(size: nat) returns (line: Option<string>)
      requires size >= 2
      modifies this
      ensures (line, rest) == Fgets(old(rest), size)
    {
      if rest == [] {
        return None;
      }
      var n := 0;
      while n < size - 1 && n < |rest| && rest[n] != '\n'
        invariant n <= |rest| && n <= size - 1
        invariant ChunkFrom(rest, n, size - 1) == ChunkFrom(rest, 0, size - 1)
        decreases |rest| - n
      {
        n := n + 1;
      }
      if n < size - 1 && n < |rest| {
        n := n + 1;     // the newline is read into the buffer too
      }
      var chunk := rest[..n];
      if n > 0 && chunk[n - 1] == '\n' {
        chunk := chunk[..n - 1];
      }
      line := Some(chunk);
      rest := rest[n..];
    }
  }
}

/** Newline framing of a byte stream that arrives in chunks, as done by
    both NDJSON readers of the application: every `'\n'` ends a line, the
    text after the last `'\n'` waits in a buffer for the next chunk. */
module LineSplit {
  import Text

  /** The `'\n'`-terminated lines of `s`, in order, without their `'\n'`.
      Defined from the right so that it follows a left-to-right scan. */
  function Lines(s: string): seq<string>
  {
    if s == [] then []
    else if s[|s| - 1] == '\n' then Lines(s[..|s| - 1]) + [Tail(s[..|s| - 1])]
    else Lines(s[..|s| - 1])
  }

  /** The unterminated text after the last `'\n'` of `s`. */
  function Tail(s: string): (r: string)
    ensures '\n' !in r
  {
    if s == [] then []
    else if s[|s| - 1] == '\n' then []
    else Tail(s[..|s| - 1]) + [s[|s| - 1]]
  }

  /** A string is the concatenation of its lines, each followed by its
      newline, and then its tail: no text is lost or duplicated. */
  function Unlines(ls: seq<string>): string {
    if ls == [] then [] else Unlines(ls[..|ls| - 1]) + ls[|ls| - 1] + "\n"
  }

  lemma {:induction false} LinesTailPartition(s: string)
    ensures Unlines(Lines(s)) + Tail(s) == s
    ensures forall l :: l in Lines(s) ==> '\n' !in l
  {
    if s != [] {
      var p := s[..|s| - 1];
      LinesTailPartition(p);
      if s[|s| - 1] == '\n' {
        assert Lines(s) == Lines(p) + [Tail(p)];
        assert Lines(s)[..|Lines(s)| - 1] == Lines(p);
        assert s == p + "\n";
      } else {
        assert s == p + [s[|s| - 1]];
      }
    }
  }

  /** Appending a chunk: the lines of the whole text are the lines already
      complete followed by the lines of (pending tail + chunk), and the new
      pending tail comes from that same string. This is what lets a reader
      keep only the tail between chunks. */
  lemma {:induction false} AppendChunk(a: string, b: string)
    ensures Lines(a + b) == Lines(a) + Lines(Tail(a) + b)
    ensures Tail(a + b) == Tail(Tail(a) + b)
  {
    var t := Tail(a);
    if b == [] {
      assert a + b == a;
      assert t + b == t;
      TailOfTail(a);
    } else {
      var b', c := b[..|b| - 1], b[|b| - 1];
      assert b == b' + [c];
      AppendChunk(a, b');
      AppendChunkStep(a, b', c);
      SnocAssoc(a, b', c);
      SnocAssoc(t, b', c);
    }
  }

  lemma SnocAssoc(x: string, y: string, c: char)
    ensures x + (y + [c]) == (x + y) + [c]
  {
  }

  /** One more character keeps the chunk split, given it holds so far. */
  lemma AppendChunkStep(a: string, b: string, c: char)
    requires Lines(a + b) == Lines(a) + Lines(Tail(a) + b)
    requires Tail(a + b) == Tail(Tail(a) + b)
    ensures Lines((a + b) + [c]) == Lines(a) + Lines((Tail(a) + b) + [c])
    ensures Tail((a + b) + [c]) == Tail((Tail(a) + b) + [c])
  {
    var x, y := a + b, Tail(a) + b;
    var extra := if c == '\n' then [Tail(x)] else [];
    AppendChar(x, c);
    AppendChar(y, c);
    assert Lines(y + [c]) == Lines(y) + extra;
    assert Lines(a) + (Lines(y) + extra) == (Lines(a) + Lines(y)) + extra;
  }

  /** Scanning one more character. */
  lemma AppendChar(s: string, c: char)
    ensures Lines(s + [c]) == Lines(s) + (if c == '\n' then [Tail(s)] else [])
    ensures Tail(s + [c]) == if c == '\n' then [] else Tail(s) + [c]
  {
    assert (s + [c])[..|s|] == s;
  }

  lemma TailOfTail(a: string)
    ensures Lines(Tail(a)) == [] && Tail(Tail(a)) == Tail(a)
  {
    NoNewlineNoLines(Tail(a));
  }

  lemma {:induction false} NoNewlineNoLines(s: string)
    requires '\n' !in s
    ensures Lines(s) == [] && Tail(s) == s
  {
    if s != [] {
      assert s[|s| - 1] in s;
      NoNewlineNoLines(s[..|s| - 1]);
    }
  }

  /** The char loop of both readers: walk `buf`, cut a line at each
      `'\n'`, return the lines in order and the unterminated rest. */
  method ScanLines(buf: string) returns (lines: seq<string>, rest: string)
    ensures lines == Lines(buf) && rest == Tail(buf)
  {
    lines := [];
    var start := 0;
    var i := 0;
    while i < |buf|
      invariant 0 <= start <= i <= |buf|
      invariant lines == Lines(buf[..i])
      invariant Tail(buf[..i]) == buf[start..i]
    {
      assert buf[..i + 1] == buf[..i] + [buf[i]];
      AppendChar(buf[..i], buf[i]);
      if buf[i] == '\n' {
        lines := lines + [buf[start..i]];
        start := i + 1;
      }
      i := i + 1;
    }
    assert buf[..i] == buf;
    rest := buf[start..];
  }

  /** One more chunk: the lines of everything received so far are the
      earlier lines followed by those of (pending tail + chunk). */
  lemma ChunkStep(received: seq<string>, j: nat, text: string)
    requires j < |received| && received[j] == text
    ensures var before := Text.Concat(received[..j]);
      && Lines(Text.Concat(received[..j + 1]))
           == Lines(before) + Lines(Tail(before) + text)
      && Tail(Text.Concat(received[..j + 1])) == Tail(Tail(before) + text)
  {
    assert received[..j + 1][..j] == received[..j];
    AppendChunk(Text.Concat(received[..j]), text);
  }
}

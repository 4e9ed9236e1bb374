/** A model of `chunked_lines` in scripts/download_errors.py: a generator that
    reads a byte stream chunk by chunk, accumulates the chunks in a buffer and
    yields every newline-terminated slice of the buffer.

    The stream is the sequence of chunks that successive `read` calls return;
    the first empty chunk (or the end of the sequence) is end of file. The
    generator is a method that appends what it yields to `out`. */
module LineChunker {

  newtype byte = x: int | 0 <= x < 256

  /** The byte `b'\n'`. */
  const Newline: byte := 10

  /** No newline among `s[lo..hi]`. */
  predicate NewlineFree(s: seq<byte>, lo: int, hi: int)
    requires 0 <= lo <= hi <= |s|
  {
    forall k :: lo <= k < hi ==> s[k] != Newline
  }

  /** A slice as the splitter yields it: it ends with a newline and holds no
      other newline. */
  predicate IsLine(s: seq<byte>) {
    |s| > 0 && s[|s| - 1] == Newline && NewlineFree(s, 0, |s| - 1)
  }

  predicate AllLines(ls: seq<seq<byte>>) {
    forall k :: 0 <= k < |ls| ==> IsLine(ls[k])
  }

  /** `b''.join(ss)` */
  function Concat(ss: seq<seq<byte>>): seq<byte> {
    if ss == [] then [] else ss[0] + Concat(ss[1..])
  }

  lemma {:induction false} ConcatAppend(a: seq<seq<byte>>, b: seq<seq<byte>>)
    ensures Concat(a + b) == Concat(a) + Concat(b)
  {
    if a == [] {
      assert a + b == b;
    } else {
      assert (a + b)[1..] == a[1..] + b;
      ConcatAppend(a[1..], b);
    }
  }

  lemma ConcatSnoc(ss: seq<seq<byte>>, s: seq<byte>)
    ensures Concat(ss + [s]) == Concat(ss) + s
  {
    ConcatAppend(ss, [s]);
    assert Concat([s]) == s + Concat([]);
  }

  /** `buf.find(b'\n', from)`: the index of the first newline at or after
      `from`, or -1 when there is none (see FindNewlineFirst). */
  function FindNewline(buf: seq<byte>, from: nat): (j: int)
    requires from <= |buf|
    ensures j == -1 || from <= j < |buf|
    decreases |buf| - from
  {
    if from == |buf| then -1
    else if buf[from] == Newline then from
    else FindNewline(buf, from + 1)
  }

  /** `find` answers -1 exactly when no newline follows `from`, and otherwise
      the first newline after `from`. */
  lemma {:induction false} FindNewlineFirst(buf: seq<byte>, from: nat)
    requires from <= |buf|
    ensures FindNewline(buf, from) == -1 <==> NewlineFree(buf, from, |buf|)
    ensures FindNewline(buf, from) != -1 ==>
              buf[FindNewline(buf, from)] == Newline && NewlineFree(buf, from, FindNewline(buf, from))
    decreases |buf| - from
  {
    if from < |buf| && buf[from] != Newline {
      FindNewlineFirst(buf, from + 1);
    }
  }

  /** Any newline at `m` with none before it from `from` on is what `find`
      answers. */
  lemma FindNewlineAt(buf: seq<byte>, from: nat, m: nat)
    requires from <= m < |buf| && buf[m] == Newline && NewlineFree(buf, from, m)
    ensures FindNewline(buf, from) == m
  {
    FindNewlineFirst(buf, from);
    var j := FindNewline(buf, from);
    assert j != -1 by {
      assert !NewlineFree(buf, from, |buf|) by { assert buf[m] == Newline; }
    }
    if j < m {
      assert buf[j] == Newline;
    } else if j > m {
      assert buf[m] == Newline;
    }
  }

  /** The newline-terminated slices of `s` from the cursor `i` on, in order:
      what the cursor loop yields when started at `i`. */
  function LinesFrom(s: seq<byte>, i: nat): seq<seq<byte>>
    requires i <= |s|
    decreases |s| - i
  {
    var j := FindNewline(s, i);
    if j == -1 then [] else [s[i..j + 1]] + LinesFrom(s, j + 1)
  }

  /** The newline-terminated slices of `s`. Bytes after the last newline are
      not among them. */
  function Lines(s: seq<byte>): seq<seq<byte>> {
    LinesFrom(s, 0)
  }

  /** Where the cursor loop started at `i` stops: just after the last newline
      of `s`, or `i` when there is none. */
  function RestFrom(s: seq<byte>, i: nat): (k: nat)
    requires i <= |s|
    ensures i <= k <= |s|
    decreases |s| - i
  {
    var j := FindNewline(s, i);
    if j == -1 then i else RestFrom(s, j + 1)
  }

  /** The bytes of `s` after its last newline: the fragment that a stream
      which does not end with a newline leaves behind. */
  function Unterminated(s: seq<byte>): seq<byte> {
    s[RestFrom(s, 0)..]
  }

  /** Every slice the cursor loop yields is a line. */
  lemma {:induction false} LinesFromAreLines(s: seq<byte>, i: nat)
    requires i <= |s|
    ensures AllLines(LinesFrom(s, i))
    decreases |s| - i
  {
    var j := FindNewline(s, i);
    if j != -1 {
      FindNewlineFirst(s, i);
      LinesFromAreLines(s, j + 1);
      var line := s[i..j + 1];
      assert IsLine(line) by {
        forall k | 0 <= k < |line| - 1 ensures line[k] != Newline {
          assert line[k] == s[i + k];
        }
      }
    }
  }

  /** The cursor stops where no newline follows, and just after a newline
      when it moved at all. */
  lemma {:induction false} RestFromIsTail(s: seq<byte>, i: nat)
    requires i <= |s|
    ensures NewlineFree(s, RestFrom(s, i), |s|)
    ensures RestFrom(s, i) == i || s[RestFrom(s, i) - 1] == Newline
    ensures RestFrom(s, i) == i <==> NewlineFree(s, i, |s|)
    decreases |s| - i
  {
    FindNewlineFirst(s, i);
    var j := FindNewline(s, i);
    if j != -1 {
      RestFromIsTail(s, j + 1);
    }
  }

  lemma SliceSplit(s: seq<byte>, a: nat, b: nat)
    requires a <= b <= |s|
    ensures s[a..] == s[a..b] + s[b..]
  {
  }

  /** Every byte from the cursor on is either in a yielded line or in the
      fragment after the last newline, and the lines come first. */
  lemma {:induction false} LinesFromSplit(s: seq<byte>, i: nat)
    requires i <= |s|
    ensures Concat(LinesFrom(s, i)) + s[RestFrom(s, i)..] == s[i..]
    decreases |s| - i
  {
    var j := FindNewline(s, i);
    if j != -1 {
      var line, rest := s[i..j + 1], LinesFrom(s, j + 1);
      var tail := s[RestFrom(s, i)..];
      assert LinesFrom(s, i) == [line] + rest;
      assert ([line] + rest)[1..] == rest;
      assert Concat(LinesFrom(s, i)) == line + Concat(rest);
      LinesFromSplit(s, j + 1);
      assert Concat(rest) + tail == s[j + 1..];
      SliceSplit(s, i, j + 1);
      AppendAssoc(line, Concat(rest), tail);
    }
  }

  /** The bytes of `s` are its lines followed by the unterminated fragment,
      which holds no newline. */
  lemma LinesSplit(s: seq<byte>)
    ensures AllLines(Lines(s))
    ensures Concat(Lines(s)) + Unterminated(s) == s
    ensures NewlineFree(Unterminated(s), 0, |Unterminated(s)|)
  {
    LinesFromAreLines(s, 0);
    LinesFromSplit(s, 0);
    RestFromIsTail(s, 0);
    var r := RestFrom(s, 0);
    forall k | 0 <= k < |s| - r ensures s[r..][k] != Newline {
      assert s[r..][k] == s[r + k];
    }
  }

  /** Splitting undoes joining, from any cursor: lines followed by a fragment
      without newline split back into exactly those lines, and the cursor
      stops where the fragment begins. */
  lemma {:induction false} LinesFromConcat(p: seq<byte>, ls: seq<seq<byte>>, t: seq<byte>)
    requires AllLines(ls)
    requires NewlineFree(t, 0, |t|)
    ensures LinesFrom(p + Concat(ls) + t, |p|) == ls
    ensures RestFrom(p + Concat(ls) + t, |p|) == |p| + |Concat(ls)|
    decreases |ls|
  {
    var s := p + Concat(ls) + t;
    if ls == [] {
      assert s == p + t;
      NoNewlineAfter(p, t);
      FindNewlineFirst(s, |p|);
    } else {
      var l, r := ls[0], Concat(ls[1..]) + t;
      assert s == p + l + r by {
        AppendAssoc(l, Concat(ls[1..]), t);
      }
      var q := |p| + |l|;
      LineAtCursor(p, l, r);
      CursorStep(s, |p|);
      assert FindNewline(s, |p|) == q - 1;
      assert s[|p|..q] == l;
      assert LinesFrom(s, |p|) == [l] + LinesFrom(s, q);
      assert RestFrom(s, |p|) == RestFrom(s, q);
      LinesFromConcat(p + l, ls[1..], t);
      assert (p + l) + Concat(ls[1..]) + t == s by {
        AppendAssoc(p, l, Concat(ls[1..]));
      }
      assert LinesFrom(s, q) == ls[1..];
      assert RestFrom(s, q) == q + |Concat(ls[1..])|;
      assert ls == [l] + ls[1..];
      assert |Concat(ls)| == |l| + |Concat(ls[1..])|;
    }
  }

  /** One turn of the cursor loop: yield up to the next newline, move past it. */
  lemma CursorStep(s: seq<byte>, i: nat)
    requires i <= |s| && FindNewline(s, i) != -1
    ensures LinesFrom(s, i) == [s[i..FindNewline(s, i) + 1]] + LinesFrom(s, FindNewline(s, i) + 1)
    ensures RestFrom(s, i) == RestFrom(s, FindNewline(s, i) + 1)
  {
  }

  /** A cursor at the start of a newline-free suffix finds no newline. */
  lemma NoNewlineAfter(p: seq<byte>, t: seq<byte>)
    requires NewlineFree(t, 0, |t|)
    ensures NewlineFree(p + t, |p|, |p + t|)
  {
    forall k | |p| <= k < |p + t| ensures (p + t)[k] != Newline {
      assert (p + t)[k] == t[k - |p|];
    }
  }

  /** A cursor at the start of a line finds the newline that ends it, and the
      slice it yields is that line. */
  lemma LineAtCursor(p: seq<byte>, l: seq<byte>, r: seq<byte>)
    requires IsLine(l)
    ensures FindNewline(p + l + r, |p|) == |p| + |l| - 1
    ensures (p + l + r)[|p|..|p| + |l|] == l
  {
    var s := p + l + r;
    var m := |p| + |l| - 1;
    assert s[m] == l[|l| - 1];
    assert NewlineFree(s, |p|, m) by {
      forall k | |p| <= k < m ensures s[k] != Newline {
        assert s[k] == l[k - |p|];
      }
    }
    FindNewlineAt(s, |p|, m);
    assert s[|p|..m + 1] == l;
  }

  /** Splitting undoes joining: newline-terminated lines followed by a
      fragment without newline split back into exactly those lines and that
      fragment. */
  lemma LinesOfConcat(ls: seq<seq<byte>>, t: seq<byte>)
    requires AllLines(ls)
    requires NewlineFree(t, 0, |t|)
    ensures Lines(Concat(ls) + t) == ls
    ensures Unterminated(Concat(ls) + t) == t
  {
    LinesFromConcat([], ls, t);
    assert [] + Concat(ls) + t == Concat(ls) + t;
  }

  /** What the buffering relies on: once a prefix has been split into whole
      lines, the rest splits on its own, whatever came before. */
  lemma LinesStreaming(ls: seq<seq<byte>>, x: seq<byte>)
    requires AllLines(ls)
    ensures Lines(Concat(ls) + x) == ls + Lines(x)
  {
    var lx, u := Lines(x), Unterminated(x);
    LinesSplit(x);
    ConcatAppend(ls, lx);
    AppendAssoc(Concat(ls), Concat(lx), u);
    assert Concat(ls) + x == Concat(ls + lx) + u;
    assert AllLines(ls + lx) by {
      forall k | 0 <= k < |ls + lx| ensures IsLine((ls + lx)[k]) {
        if k < |ls| { assert (ls + lx)[k] == ls[k]; }
        else { assert (ls + lx)[k] == lx[k - |ls|]; }
      }
    }
    LinesOfConcat(ls + lx, u);
  }

  /** The lines of a prefix are a prefix of the lines of the whole stream, so
      yielding them before the rest arrives is sound. */
  lemma LinesPrefix(a: seq<byte>, b: seq<byte>)
    ensures Lines(a) <= Lines(a + b)
  {
    LinesSplit(a);
    var u := Unterminated(a);
    assert a + b == Concat(Lines(a)) + (u + b);
    LinesStreaming(Lines(a), u + b);
  }

  /** Bytes without a newline appended to the input never produce a line: a
      last line without its newline is dropped. */
  lemma LinesIgnoreUnterminatedTail(s: seq<byte>, t: seq<byte>)
    requires NewlineFree(t, 0, |t|)
    ensures Lines(s + t) == Lines(s)
  {
    LinesSplit(s);
    var u := Unterminated(s);
    assert s + t == Concat(Lines(s)) + (u + t);
    assert NewlineFree(u + t, 0, |u + t|) by {
      forall k | 0 <= k < |u + t| ensures (u + t)[k] != Newline {
        if k >= |u| { assert (u + t)[k] == t[k - |u|]; }
      }
    }
    LinesOfConcat(Lines(s), u + t);
  }

  /** For instance, the stream `b'a\nb'` yields only `b'a\n'`; the `b'b'`
      after the last newline is never yielded. */
  lemma LastLineWithoutNewlineIsDropped()
    ensures Lines([97, 10, 98]) == [[97, 10]]
    ensures Unterminated([97, 10, 98]) == [98]
  {
    var s: seq<byte> := [97, 10, 98];
    assert FindNewline(s, 3) == -1;
    assert FindNewline(s, 2) == -1;
    assert FindNewline(s, 0) == 1;
    assert s[0..2] == [97, 10];
    assert LinesFrom(s, 2) == [];
  }

  /** `fp.read(size)` as its k-th call sees the stream: past the last chunk
      only empty reads remain. */
  function Read(stream: seq<seq<byte>>, k: nat): seq<byte> {
    if k < |stream| then stream[k] else []
  }

  /** How many chunks the generator consumes: those before the first empty
      read. */
  function ReadsBeforeEof(stream: seq<seq<byte>>): (n: nat)
    ensures n <= |stream|
    ensures forall k :: 0 <= k < n ==> stream[k] != []
    ensures n < |stream| ==> stream[n] == []
  {
    if stream == [] || stream[0] == [] then 0
    else 1 + ReadsBeforeEof(stream[1..])
  }

  /** The bytes the generator reads before end of file. */
  function StreamBytes(stream: seq<seq<byte>>): seq<byte> {
    Concat(stream[..ReadsBeforeEof(stream)])
  }

  /** One pass of the cursor loop over `buf`: the slices `buf[i:j+1]` it
      yields, and the cursor `i` it stops at. */
  method ScanLines(buf: seq<byte>) returns (found: seq<seq<byte>>, i: nat)
    ensures found == Lines(buf)
    ensures i <= |buf| && buf[i..] == Unterminated(buf)
    ensures i == 0 <==> NewlineFree(buf, 0, |buf|)
  {
    found := [];
    i := 0;
    var j := FindNewline(buf, 0);
    while j != -1
      invariant i <= |buf|
      invariant j == FindNewline(buf, i)
      invariant found + LinesFrom(buf, i) == Lines(buf)
      invariant RestFrom(buf, i) == RestFrom(buf, 0)
      decreases |buf| - i
    {
      found := found + [buf[i..j + 1]];
      i := j + 1;
      j := FindNewline(buf, i);
    }
    RestFromIsTail(buf, 0);
  }

  /** One turn of the generator's outer loop keeps its invariant: after the
      chunk is appended and the buffer scanned, the lines yielded so far and
      the compacted buffer still make up everything read, and the buffer
      holds no newline. */
  lemma RefillStep(out: seq<seq<byte>>, buf: seq<byte>, chunk: seq<byte>)
    requires AllLines(out)
    ensures AllLines(out + Lines(buf + chunk))
    ensures Concat(out + Lines(buf + chunk)) + Unterminated(buf + chunk) == Concat(out) + buf + chunk
    ensures NewlineFree(Unterminated(buf + chunk), 0, |Unterminated(buf + chunk)|)
  {
    var b := buf + chunk;
    var lines, rest := Lines(b), Unterminated(b);
    LinesSplit(b);
    ConcatAppend(out, lines);
    calc {
      Concat(out + lines) + rest;
      == (Concat(out) + Concat(lines)) + rest;
      == { AppendAssoc(Concat(out), Concat(lines), rest); }
      Concat(out) + (Concat(lines) + rest);
      == Concat(out) + b;
      == { AppendAssoc(Concat(out), buf, chunk); }
      Concat(out) + buf + chunk;
    }
  }

  lemma AppendAssoc(x: seq<byte>, y: seq<byte>, z: seq<byte>)
    ensures (x + y) + z == x + (y + z)
  {
  }

  /** The generator: it yields exactly the lines of the bytes read before end
      of file, however the stream is cut into chunks; every yielded slice is a
      line, and together they are the input up to its last newline. */
  method ChunkedLines(stream: seq<seq<byte>>) returns (out: seq<seq<byte>>)
    ensures out == Lines(StreamBytes(stream))
    ensures AllLines(out)
    ensures Concat(out) + Unterminated(StreamBytes(stream)) == StreamBytes(stream)
  {
    out := [];
    var buf: seq<byte> := [];
    var k := 0;
    var chunk := Read(stream, k);
    while chunk != []
      invariant k <= ReadsBeforeEof(stream)
      invariant chunk == Read(stream, k)
      invariant AllLines(out) && NewlineFree(buf, 0, |buf|)
      invariant Concat(out) + buf == Concat(stream[..k])
      decreases |stream| - k
    {
      assert stream[..k + 1] == stream[..k] + [chunk];
      ConcatSnoc(stream[..k], chunk);
      RefillStep(out, buf, chunk);
      buf := buf + chunk;
      var found, i := ScanLines(buf);
      out := out + found;
      if i != 0 {
        buf := buf[i..];
      }
      k := k + 1;
      chunk := Read(stream, k);
    }
    assert k == ReadsBeforeEof(stream);
    LinesOfConcat(out, buf);
    LinesSplit(StreamBytes(stream));
    if buf != [] {
      var found, i := ScanLines(buf);
      LinesOfConcat([], buf);
      assert Concat([]) + buf == buf;
      out := out + found;
      if i != 0 {
        // The remainder `buf[i:]` would be yielded here, but the buffer
        // holds no newline when the main loop ends, so the cursor never
        // moved and this branch is dead.
        assert false;
      }
    }
  }
}

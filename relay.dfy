/** The stdout line buffer of `run_on_target` in `remote_runner.py`.

    The SSH channel is abstracted into what the polling loop observes:
    `chunks`, the results of the successive `recv(4096)` calls made while data
    was ready (an empty chunk is end-of-stream), and `drain`, the chunks read
    after the remote process has exited.  `decode` stands for
    `bytes.decode("utf-8", errors="replace")`, a total function whose details
    (replacement of malformed sequences) are not modelled.  Every entry appended
    to `output_lines` is also printed at once, so the sequence of entries is
    also the order in which the operator sees them. */
module Relay {
  import opened Text

  newtype byte = x: int | 0 <= x < 256

  type Bytes = seq<byte>

  /** The byte `b"\n"`. */
  const NL: byte := 10

  /** Concatenation of the chunks in arrival order (`buf += chunk`). */
  function Concat(cs: seq<Bytes>): (r: Bytes)
    ensures |cs| == 0 ==> r == []
    decreases |cs|
  {
    if |cs| == 0 then [] else Concat(cs[..|cs| - 1]) + cs[|cs| - 1]
  }

  /** The chunks the main loop consumes: all of them up to the first empty
      one, at which `if not chunk: break` leaves the loop. */
  function UntilEof(chunks: seq<Bytes>): (r: seq<Bytes>)
    ensures |r| <= |chunks| && r == chunks[..|r|]
    ensures forall i :: 0 <= i < |r| ==> r[i] != []
    ensures |r| < |chunks| ==> chunks[|r|] == []
    decreases |chunks|
  {
    if |chunks| == 0 || chunks[0] == [] then []
    else [chunks[0]] + UntilEof(chunks[1..])
  }

  /** Bytes appended to the buffer after the main loop: the drained chunks,
      read only when the loop ended because the remote process exited (not
      at end-of-stream). */
  function DrainedBytes(chunks: seq<Bytes>, drain: seq<Bytes>): Bytes
  {
    if [] in chunks then [] else Concat(drain)
  }

  /** The buffer flushed after the loop: the unterminated tail of the main
      phase followed by every drained byte. */
  function FinalBuffer(chunks: seq<Bytes>, drain: seq<Bytes>): Bytes
  {
    var p := Split(Concat(UntilEof(chunks)), NL);
    p[|p| - 1] + DrainedBytes(chunks, drain)
  }

  /** The stdout entries, before decoding: every newline-terminated line of
      the main phase, then the final buffer if it is not empty. */
  function StdoutEntries(chunks: seq<Bytes>, drain: seq<Bytes>): seq<Bytes>
  {
    var p := Split(Concat(UntilEof(chunks)), NL);
    var rest := FinalBuffer(chunks, drain);
    p[..|p| - 1] + (if rest == [] then [] else [rest])
  }

  function Decoded(es: seq<Bytes>, decode: Bytes -> string): (r: seq<string>)
    ensures |r| == |es| && forall i :: 0 <= i < |es| ==> r[i] == decode(es[i])
  {
    seq(|es|, i requires 0 <= i < |es| => decode(es[i]))
  }

  /** The prefix of the entry that carries stderr. */
  const StderrPrefix: string := "\n⚠️  stderr: "

  /** The stderr entry: present only for a nonzero exit code and non-empty stderr. */
  function StderrEntry(exitCode: int, stderr: Bytes, decode: Bytes -> string): seq<string>
  {
    if exitCode != 0 && stderr != [] then [StderrPrefix + decode(stderr)] else []
  }

  /** The entries of `output_lines`, in order. */
  function OutputLines(chunks: seq<Bytes>, drain: seq<Bytes>, exitCode: int, stderr: Bytes,
                       decode: Bytes -> string): (lines: seq<string>)
    ensures var e := StdoutEntries(chunks, drain);
      && |lines| == |e| + (if exitCode != 0 && stderr != [] then 1 else 0)
      && forall i :: 0 <= i < |e| ==> lines[i] == decode(e[i])
  {
    Decoded(StdoutEntries(chunks, drain), decode) + StderrEntry(exitCode, stderr, decode)
  }

  /** Index of the first newline in `buf` (Python's `buf.split(b"\n", 1)`). */
  function FirstNewline(buf: Bytes): (i: nat)
    requires NL in buf
    ensures i < |buf| && buf[i] == NL && NL !in buf[..i]
    decreases |buf|
  {
    if buf[0] == NL then 0
    else
      assert buf == [buf[0]] + buf[1..];
      1 + FirstNewline(buf[1..])
  }

  lemma SplitAtFirstNewline(buf: Bytes)
    requires NL in buf
    ensures var i := FirstNewline(buf);
      Split(buf, NL) == [buf[..i]] + Split(buf[i + 1..], NL)
  {
    var i := FirstNewline(buf);
    assert buf == buf[..i] + [NL] + buf[i + 1..];
    SplitConcat(buf[..i], buf[i + 1..], NL);
  }

  lemma GluePrefix(e: seq<Bytes>, x: Bytes, pb: seq<Bytes>)
    requires |pb| >= 1
    ensures Glue(e + [x], pb) == e + Glue([x], pb)
  {
    assert (e + [x])[..|e|] == e;
  }

  lemma ConcatStep(cs: seq<Bytes>, k: nat)
    requires k < |cs|
    ensures Concat(cs[..k + 1]) == Concat(cs[..k]) + cs[k]
  {
    assert cs[..k + 1][..k] == cs[..k];
  }

  /** Splitting off the first line keeps the lines and the buffer a split of `buf0`. */
  lemma SplitOffStep(complete: seq<Bytes>, buf: Bytes, buf0: Bytes)
    requires NL in buf
    requires complete + Split(buf, NL) == Split(buf0, NL)
    ensures var i := FirstNewline(buf);
      (complete + [buf[..i]]) + Split(buf[i + 1..], NL) == Split(buf0, NL)
  {
    var i := FirstNewline(buf);
    SplitAtFirstNewline(buf);
    assert (complete + [buf[..i]]) + Split(buf[i + 1..], NL) == complete + ([buf[..i]] + Split(buf[i + 1..], NL));
  }

  /** The inner `while b"\n" in buf` loop: splits off every complete line,
      in order, and leaves the newline-free remainder in the buffer. */
  method SplitOffLines(buf0: Bytes, decode: Bytes -> string)
    returns (complete: seq<Bytes>, decoded: seq<string>, buf: Bytes)
    ensures complete + [buf] == Split(buf0, NL)
    ensures NL !in buf
    ensures decoded == Decoded(complete, decode)
  {
    complete, decoded, buf := [], [], buf0;
    while NL in buf
      invariant complete + Split(buf, NL) == Split(buf0, NL)
      invariant decoded == Decoded(complete, decode)
      decreases |buf|
    {
      var i := FirstNewline(buf);
      var line := buf[..i];
      SplitOffStep(complete, buf, buf0);
      buf := buf[i + 1..];
      DecodedAppend(complete, [line], decode);
      complete := complete + [line];
      decoded := decoded + [decode(line)];
    }
    SplitFree(buf, NL);
  }

  /** One chunk of the main loop: `buf += chunk`, then the complete lines are
      split off; the lines emitted so far and the buffer always make up the
      split of everything received, wherever the chunk boundaries fell. */
  lemma ChunkStep(emitted: seq<Bytes>, buf: Bytes, before: Bytes, chunk: Bytes,
                  complete: seq<Bytes>, rest: Bytes)
    requires NL !in buf
    requires emitted + [buf] == Split(before, NL)
    requires complete + [rest] == Split(buf + chunk, NL)
    ensures (emitted + complete) + [rest] == Split(before + chunk, NL)
  {
    SplitFree(buf, NL);
    SplitAppend(buf, chunk, NL);
    SplitAppend(before, chunk, NL);
    GluePrefix(emitted, buf, Split(chunk, NL));
  }

  /** After the loop: the flushed buffer is the final buffer, and the
      emitted entries are exactly the stdout entries. */
  lemma FlushStep(chunks: seq<Bytes>, drain: seq<Bytes>, emitted: seq<Bytes>, tail: Bytes, buf: Bytes,
                  decode: Bytes -> string)
    requires emitted + [tail] == Split(Concat(UntilEof(chunks)), NL)
    requires buf == tail + DrainedBytes(chunks, drain)
    ensures buf == FinalBuffer(chunks, drain)
    ensures Decoded(emitted, decode) + (if buf == [] then [] else [decode(buf)])
            == Decoded(StdoutEntries(chunks, drain), decode)
  {
    var p := Split(Concat(UntilEof(chunks)), NL);
    assert p[..|p| - 1] == emitted && p[|p| - 1] == tail;
    var e := emitted + (if buf == [] then [] else [buf]);
    assert e == StdoutEntries(chunks, drain);
    DecodedAppend(emitted, if buf == [] then [] else [buf], decode);
  }

  lemma DecodedAppend(a: seq<Bytes>, b: seq<Bytes>, decode: Bytes -> string)
    ensures Decoded(a + b, decode) == Decoded(a, decode) + Decoded(b, decode)
  {
  }

  /** The drain after the remote process exited: every chunk still ready is
      appended to the buffer, without looking for newlines. */
  method DrainRemaining(buf0: Bytes, drain: seq<Bytes>) returns (buf: Bytes)
    ensures buf == buf0 + Concat(drain)
  {
    buf := buf0;
    var j := 0;
    while j < |drain|
      invariant 0 <= j <= |drain|
      invariant buf == buf0 + Concat(drain[..j])
    {
      ConcatStep(drain, j);
      buf := buf + drain[j];
      j := j + 1;
    }
    assert drain[..j] == drain;
  }

  /** The live stdout loop, the drain and the stderr append, over abstract chunks. */
  method RelayOutput(chunks: seq<Bytes>, drain: seq<Bytes>, exitCode: int, stderr: Bytes,
                     decode: Bytes -> string)
    returns (lines: seq<string>)
    ensures lines == OutputLines(chunks, drain, exitCode, stderr, decode)
  {
    lines := [];
    var buf: Bytes := [];
    ghost var emitted: seq<Bytes> := [];
    var k := 0;
    var eof := false;
    while k < |chunks|
      invariant 0 <= k <= |chunks| && !eof
      invariant forall j :: 0 <= j < k ==> chunks[j] != []
      invariant NL !in buf
      invariant emitted + [buf] == Split(Concat(chunks[..k]), NL)
      invariant lines == Decoded(emitted, decode)
    {
      var chunk := chunks[k];
      if chunk == [] {
        eof := true;
        break;
      }
      var complete, decoded, rest := SplitOffLines(buf + chunk, decode);
      ChunkStep(emitted, buf, Concat(chunks[..k]), chunk, complete, rest);
      ConcatStep(chunks, k);
      DecodedAppend(emitted, complete, decode);
      emitted, lines, buf := emitted + complete, lines + decoded, rest;
      k := k + 1;
    }
    assert if eof then k < |chunks| && chunks[k] == [] else k == |chunks|;
    UntilEofPrefix(chunks, k);
    assert eof <==> [] in chunks;
    ghost var tail := buf;
    if !eof {
      buf := DrainRemaining(buf, drain);
    }
    FlushStep(chunks, drain, emitted, tail, buf, decode);
    if buf != [] {
      lines := lines + [decode(buf)];
    }
    assert lines == Decoded(StdoutEntries(chunks, drain), decode);
    if exitCode != 0 {
      if stderr != [] {
        lines := lines + [StderrPrefix + decode(stderr)];
      }
    }
  }

  lemma {:induction false} UntilEofPrefix(chunks: seq<Bytes>, k: nat)
    requires k <= |chunks|
    requires forall j :: 0 <= j < k ==> chunks[j] != []
    requires k < |chunks| ==> chunks[k] == []
    ensures UntilEof(chunks) == chunks[..k]
  {
  }

  // ---------------------------------------------------------------------------
  // Properties of the relayed entries

  /** Every newline-terminated line of the main phase is emitted without its
      newline; only the final flushed buffer can hold a newline, and then only
      one that came in the drain phase. */
  lemma EntriesNewlineFree(chunks: seq<Bytes>, drain: seq<Bytes>)
    ensures var e := StdoutEntries(chunks, drain);
      forall i :: 0 <= i < |e| - 1 ==> NL !in e[i]
    ensures NL !in DrainedBytes(chunks, drain) ==>
      var e := StdoutEntries(chunks, drain);
      forall i :: 0 <= i < |e| ==> NL !in e[i]
  {
    var p := Split(Concat(UntilEof(chunks)), NL);
    SplitPiecesFree(Concat(UntilEof(chunks)), NL);
    var e := StdoutEntries(chunks, drain);
    assert forall i :: 0 <= i < |p| - 1 ==> e[i] == p[i];
    var d := DrainedBytes(chunks, drain);
    if NL !in d {
      var rest := p[|p| - 1] + d;
      assert NL !in rest;
    }
  }

  /** When the stream ended at end-of-stream (no drain phase), no entry holds a newline. */
  lemma EntriesNewlineFreeAtEof(chunks: seq<Bytes>, drain: seq<Bytes>)
    requires [] in chunks
    ensures var e := StdoutEntries(chunks, drain);
      forall i :: 0 <= i < |e| ==> NL !in e[i]
  {
    EntriesNewlineFree(chunks, drain);
  }

  /** The drain phase is not split into lines: a drained `"a\nb"` after an
      empty main phase comes out as one entry that holds a newline. */
  lemma DrainedEntryKeepsNewline()
    ensures StdoutEntries([], [[97, NL, 98]]) == [[97, NL, 98]]
  {
    assert Concat([[97, NL, 98]]) == [97, NL, 98] by {
      assert [[97, NL, 98]][..0] == [];
    }
  }

  /** All received stdout bytes, in arrival order. */
  function ReceivedBytes(chunks: seq<Bytes>, drain: seq<Bytes>): Bytes
  {
    Concat(UntilEof(chunks)) + DrainedBytes(chunks, drain)
  }

  /** `"\n".join` of the entries gives back every received byte, except that a
      final newline is dropped when nothing follows it. */
  lemma EntriesReconstruct(chunks: seq<Bytes>, drain: seq<Bytes>)
    ensures var e, all := StdoutEntries(chunks, drain), ReceivedBytes(chunks, drain);
      if FinalBuffer(chunks, drain) != [] then Join(e, [NL]) == all
      else e == [] <==> all == []
    ensures var e, all := StdoutEntries(chunks, drain), ReceivedBytes(chunks, drain);
      FinalBuffer(chunks, drain) == [] && all != [] ==> Join(e, [NL]) + [NL] == all
  {
    var s := Concat(UntilEof(chunks));
    var p, d := Split(s, NL), DrainedBytes(chunks, drain);
    JoinSplit(s, NL);
    var rest := p[|p| - 1] + d;
    PiecesReconstruct(p, d);
    assert FinalBuffer(chunks, drain) == rest;
    assert StdoutEntries(chunks, drain) == p[..|p| - 1] + (if rest == [] then [] else [rest]);
    assert ReceivedBytes(chunks, drain) == Join(p, [NL]) + d;
  }

  /** The same over the pieces `p` of the main phase and the drained bytes `d`. */
  lemma PiecesReconstruct(p: seq<Bytes>, d: Bytes)
    requires |p| >= 1
    ensures var n, rest := |p|, p[|p| - 1] + d;
      var e, all := p[..n - 1] + (if rest == [] then [] else [rest]), Join(p, [NL]) + d;
      && (rest != [] ==> Join(e, [NL]) == all)
      && (rest == [] ==> (e == [] <==> all == []))
      && (rest == [] && all != [] ==> Join(e, [NL]) + [NL] == all)
  {
    var n, rest := |p|, p[|p| - 1] + d;
    if n > 1 {
      JoinAppend(p[..n - 1], p[n - 1], [NL]);
      assert p[..n - 1] + [p[n - 1]] == p;
      assert Join(p, [NL]) + d == Join(p[..n - 1], [NL]) + [NL] + rest;
      if rest != [] {
        JoinAppend(p[..n - 1], rest, [NL]);
      } else {
        var e := p[..n - 1] + (if rest == [] then [] else [rest]);
        assert e == p[..n - 1];
        assert Join(p, [NL]) + d == Join(e, [NL]) + [NL];
      }
    }
  }


  /** The stderr entry, if any, is the very last entry, after every stdout entry. */
  lemma StderrComesLast(chunks: seq<Bytes>, drain: seq<Bytes>, exitCode: int, stderr: Bytes,
                        decode: Bytes -> string)
    ensures var lines, e := OutputLines(chunks, drain, exitCode, stderr, decode), StdoutEntries(chunks, drain);
      && lines[..|e|] == Decoded(e, decode)
      && (if exitCode != 0 && stderr != [] then
            |lines| == |e| + 1 && lines[|e|] == StderrPrefix + decode(stderr)
          else |lines| == |e|)
  {
  }

  /** Under a decoder that never produces `'\n'` from newline-free bytes (as
      UTF-8 decoding does), no decoded stdout entry but the drained one holds `'\n'`. */
  lemma DecodedEntriesNewlineFree(chunks: seq<Bytes>, drain: seq<Bytes>, decode: Bytes -> string)
    requires forall b :: NL !in b ==> '\n' !in decode(b)
    ensures var d := Decoded(StdoutEntries(chunks, drain), decode);
      forall i :: 0 <= i < |d| - 1 ==> '\n' !in d[i]
  {
    EntriesNewlineFree(chunks, drain);
  }

  /** A line split across two chunks is emitted once, whole: the chunks
      `"line1\nline"` then `"2\n"` (as ASCII bytes) give exactly `"line1"` and
      `"line2"`. */
  lemma SplitAcrossChunks()
    ensures var line, l1, l2 := [108, 105, 110, 101], [108, 105, 110, 101, 49], [108, 105, 110, 101, 50];
      StdoutEntries([l1 + [NL] + line, [50, NL]], []) == [l1, l2]
  {
    var line: Bytes, l1: Bytes, l2: Bytes := [108, 105, 110, 101], [108, 105, 110, 101, 49], [108, 105, 110, 101, 50];
    var c1, c2 := l1 + [NL] + line, [50 as byte, NL];
    assert UntilEof([c1, c2]) == [c1, c2];
    assert Concat([c1, c2]) == c1 + c2 by {
      assert [c1, c2][..1] == [c1];
      assert [c1][..0] == [];
    }
    assert c1 + c2 == l1 + [NL] + (l2 + [NL] + []);
    SplitConcat(l1, l2 + [NL] + [], NL);
    SplitConcat(l2, [], NL);
  }
}

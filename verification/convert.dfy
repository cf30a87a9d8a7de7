/** The two conversions of rawaudioutil and the copy loop they share:
    `redirect_data` copies standard input to standard output chunk by
    chunk, `wav2raw` skips a 44-byte header first, and `raw2wav` writes
    one first. Each returns the process exit status. */
module Convert {
  import opened Bytes
  import opened WaveHeader
  import opened Stdio

  /** Size of the copy buffer: 512 KiB. */
  const BUFFER_SIZE: nat := 512 * 1024

  /** Exit statuses of the conversions. */
  const EXIT_OK: int := 0
  const EXIT_READ_ERROR: int := 2
  const EXIT_WRITE_ERROR: int := 3
  const EXIT_HEADER_READ_ERROR: int := 4
  const EXIT_HEADER_WRITE_ERROR: int := 5

  /** A finished conversion: its exit status and the final state of both streams. */
  datatype Run = Run(code: int, stdin: Stdin, stdout: Stdout)

  /** The outcome of one pass through the body of the copy loop. */
  datatype Pass =
    | Stop(code: int, stdin: Stdin, stdout: Stdout)
    | Continue(stdin: Stdin, stdout: Stdout)

  /** One pass through the body of `redirect_data`'s loop: read up to
      `BUFFER_SIZE` bytes, stop with 2 if the error indicator is set (before
      anything is written), write what was read and stop with 3 if the
      write falls short. */
  function Iteration(s: Stdin, out: Stdout, o: Oracle): (p: Pass)
    requires s.Valid() && !s.eof
    ensures p.stdin.Valid() && p.stdin.data == s.data && s.pos <= p.stdin.pos
    ensures p.stdin.calls == s.calls + 1
    ensures p.stdin.pos <= s.pos + BUFFER_SIZE
    ensures p.Stop? ==> p.code == EXIT_READ_ERROR || p.code == EXIT_WRITE_ERROR
    ensures (p.Stop? && p.code == EXIT_READ_ERROR) <==> p.stdin.error
    ensures p.stdin.error <==> s.error || o.ReadAt(s.calls).Fault?
    ensures o.ReadAt(s.calls).Fault? ==> p.Stop? && p.code == EXIT_READ_ERROR && p.stdout == out
    ensures p.stdin.error ==> p.stdout == out
    ensures !p.stdin.error ==>
              s.pos <= p.stdin.pos <= s.pos + BUFFER_SIZE
              && p.stdout.requests == out.requests + [p.stdin.pos - s.pos]
    ensures p.Continue? ==>
              AppendsSlice(out.bytes, p.stdout.bytes, s.data, s.pos, p.stdin.pos)
              && (s.pos < p.stdin.pos || p.stdin.eof)
    ensures p.Stop? && p.code == EXIT_WRITE_ERROR ==>
              o.WriteAt(|out.requests|).Short?
              && out.bytes <= p.stdout.bytes
              && |p.stdout.bytes| - |out.bytes| < p.stdin.pos - s.pos
              && s.pos <= p.stdin.pos <= |s.data|
              && p.stdout.bytes <= out.bytes + s.data[s.pos..p.stdin.pos]
    ensures (p.Stop? && p.code == EXIT_WRITE_ERROR)
            <==> (!p.stdin.error && o.WriteAt(|out.requests|).Short?
                  && o.WriteAt(|out.requests|).written < p.stdin.pos - s.pos)
    ensures !s.error && o.ReadAt(s.calls) == Clean && o.WriteAt(|out.requests|) == Complete
            ==> p.Continue?
  {
    var rd := Fread(s, BUFFER_SIZE, o);
    if rd.stream.error then Stop(EXIT_READ_ERROR, rd.stream, out)
    else
      var wr := Fwrite(out, rd.got, o);
      if wr.written != |rd.got| then
        Stop(EXIT_WRITE_ERROR, rd.stream, wr.stream)
      else Continue(rd.stream, wr.stream)
  }

  /** `redirect_data`: passes through the loop body while end-of-file has
      not been signalled, and returns 0 once it has. */
  function Redirect(s: Stdin, out: Stdout, o: Oracle): (r: Run)
    requires s.Valid()
    ensures r.code == EXIT_OK || r.code == EXIT_READ_ERROR || r.code == EXIT_WRITE_ERROR
    ensures r.stdin.Valid() && r.stdin.data == s.data && s.pos <= r.stdin.pos
    ensures r.code == EXIT_OK ==> r.stdout.bytes == out.bytes + s.data[s.pos..] && r.stdin.eof
    ensures s.error && !s.eof ==> r.code == EXIT_READ_ERROR
    ensures !s.error && o.ReadsClean() && o.WritesComplete() ==> r.code == EXIT_OK
    decreases |s.data| - s.pos, if s.eof then 0 else 1
  {
    if s.eof then Run(EXIT_OK, s, out)
    else
      match Iteration(s, out, o)
      case Stop(code, s1, out1) => Run(code, s1, out1)
      case Continue(s1, out1) =>
        AppendSlices(out.bytes, s.data, s.pos, s1.pos, |s.data|);
        Redirect(s1, out1, o)
  }

  /** `redirect_data` as the loop it is; it computes exactly what `Redirect`
      describes, and the bytes written so far are always the bytes consumed
      so far. */
  method RedirectData(s0: Stdin, out0: Stdout, o: Oracle) returns (code: int, s: Stdin, out: Stdout)
    requires s0.Valid()
    ensures Run(code, s, out) == Redirect(s0, out0, o)
    ensures code == EXIT_OK ==> out.bytes == out0.bytes + s0.data[s0.pos..]
  {
    s, out := s0, out0;
    while !s.eof
      invariant s.Valid() && s.data == s0.data && s0.pos <= s.pos
      invariant out.bytes == out0.bytes + s0.data[s0.pos..s.pos]
      invariant Redirect(s, out, o) == Redirect(s0, out0, o)
      decreases |s.data| - s.pos, if s.eof then 0 else 1
    {
      var st := Iteration(s, out, o);
      if st.Stop? {
        code, s, out := st.code, st.stdin, st.stdout;
        return;
      }
      AppendSlices(out0.bytes, s0.data, s0.pos, s.pos, st.stdin.pos);
      s, out := st.stdin, st.stdout;
    }
    code := EXIT_OK;
  }

  /** Appending consecutive slices of the same sequence. */
  lemma AppendSlices(prefix: seq<byte>, d: seq<byte>, a: nat, b: nat, c: nat)
    requires a <= b <= c <= |d|
    ensures prefix + d[a..b] + d[b..c] == prefix + d[a..c]
  {
    assert d[a..c] == d[a..b] + d[b..c];
  }

  /** Whatever happens, the output receives only input bytes, in order,
      and never more than were consumed. */
  lemma {:induction false} RedirectOutputIsPrefix(s: Stdin, out: Stdout, o: Oracle)
    requires s.Valid()
    ensures var r := Redirect(s, out, o);
      out.bytes <= r.stdout.bytes <= out.bytes + s.data[s.pos..r.stdin.pos]
    decreases |s.data| - s.pos, if s.eof then 0 else 1
  {
    if !s.eof {
      var st := Iteration(s, out, o);
      if st.Continue? {
        var s1, out1 := st.stdin, st.stdout;
        RedirectOutputIsPrefix(s1, out1, o);
        var r := Redirect(s1, out1, o);
        AppendSlices(out.bytes, s.data, s.pos, s1.pos, r.stdin.pos);
      }
    }
  }

  /** How the loop talks to standard output: every pass that reads also
      writes exactly once, except a pass that stops on a read fault, which
      writes nothing; and no write asks for more than `BUFFER_SIZE` bytes. */
  lemma {:induction false} RedirectWrites(s: Stdin, out: Stdout, o: Oracle)
    requires s.Valid()
    ensures var r := Redirect(s, out, o);
      && out.requests <= r.stdout.requests
      && |r.stdout.requests| - |out.requests|
         == r.stdin.calls - s.calls - (if r.code == EXIT_READ_ERROR then 1 else 0)
      && (forall i | |out.requests| <= i < |r.stdout.requests| :: r.stdout.requests[i] <= BUFFER_SIZE)
    decreases |s.data| - s.pos, if s.eof then 0 else 1
  {
    if !s.eof {
      var st := Iteration(s, out, o);
      if st.Continue? {
        RedirectWrites(st.stdin, st.stdout, o);
        var r := Redirect(st.stdin, st.stdout, o);
        assert r.stdout.requests[|out.requests|] == st.stdout.requests[|out.requests|];
      }
    }
  }

  /** How the loop fails: status 2 only with the error indicator set, and
      status 3 only when the last write was cut short, so that the output
      lags the input consumed. */
  lemma {:induction false} RedirectFailures(s: Stdin, out: Stdout, o: Oracle)
    requires s.Valid()
    ensures var r := Redirect(s, out, o);
      && (r.code == EXIT_READ_ERROR ==> r.stdin.error)
      && (r.code == EXIT_WRITE_ERROR ==>
            |out.requests| < |r.stdout.requests| && o.WriteAt(|r.stdout.requests| - 1).Short?
            && |r.stdout.bytes| - |out.bytes| < r.stdin.pos - s.pos)
    decreases |s.data| - s.pos, if s.eof then 0 else 1
  {
    if !s.eof {
      var st := Iteration(s, out, o);
      if st.Continue? {
        var s1, out1 := st.stdin, st.stdout;
        assert Redirect(s, out, o) == Redirect(s1, out1, o);
        RedirectFailures(s1, out1, o);
        RedirectWrites(s1, out1, o);
        assert |out1.requests| == |out.requests| + 1;
        assert |out1.bytes| - |out.bytes| == s1.pos - s.pos;
      } else if st.code == EXIT_WRITE_ERROR {
        assert Redirect(s, out, o) == Run(st.code, st.stdin, st.stdout);
        assert !st.stdin.error;
      }
    }
  }

  /** Status 0 only when no read went wrong: every read the loop issued
      came back clean, and the error indicator is as it was. */
  lemma {:induction false} RedirectSucceedsOnlyWithCleanReads(s: Stdin, out: Stdout, o: Oracle)
    requires s.Valid()
    ensures var r := Redirect(s, out, o);
      r.code == EXIT_OK ==>
        && r.stdin.error == s.error
        && (forall k | s.calls <= k < r.stdin.calls :: o.ReadAt(k) == Clean)
    decreases |s.data| - s.pos, if s.eof then 0 else 1
  {
    if !s.eof {
      var st := Iteration(s, out, o);
      if st.Continue? {
        var s1, out1 := st.stdin, st.stdout;
        assert Redirect(s, out, o) == Redirect(s1, out1, o);
        RedirectSucceedsOnlyWithCleanReads(s1, out1, o);
        assert o.ReadAt(s.calls) == Clean;
      }
    }
  }

  /** Status 0 only when no write was cut short: every write the loop
      issued was accepted in full. */
  lemma {:induction false} RedirectSucceedsOnlyWithFullWrites(s: Stdin, out: Stdout, o: Oracle)
    requires s.Valid()
    ensures var r := Redirect(s, out, o);
      r.code == EXIT_OK ==>
        && out.requests <= r.stdout.requests
        && (forall k | |out.requests| <= k < |r.stdout.requests| ::
              !(o.WriteAt(k).Short? && o.WriteAt(k).written < r.stdout.requests[k]))
    decreases |s.data| - s.pos, if s.eof then 0 else 1
  {
    if !s.eof {
      var st := Iteration(s, out, o);
      if st.Continue? {
        var s1, out1 := st.stdin, st.stdout;
        assert Redirect(s, out, o) == Redirect(s1, out1, o);
        RedirectSucceedsOnlyWithFullWrites(s1, out1, o);
        assert out1.requests[|out.requests|] == s1.pos - s.pos;
      }
    }
  }

  /** An empty input is copied in one pass: status 0 and nothing written,
      unless that first read faults, which gives 2. A short write cannot
      happen, since the write asks for no bytes. */
  lemma RedirectEmptyInput(out: Stdout, o: Oracle)
    ensures var r := Redirect(Open([]), out, o);
      && r.code == (if o.ReadAt(0).Fault? then EXIT_READ_ERROR else EXIT_OK)
      && r.stdout.bytes == out.bytes
  {
    var st := Iteration(Open([]), out, o);
    if st.Continue? {
      assert st.stdin.eof;
    }
  }

  /** `wav2raw`: read the 44 header bytes without looking at them, fail
      with 4 if fewer arrive, then copy the rest. */
  function Wav2Raw(s: Stdin, out: Stdout, o: Oracle): (r: Run)
    requires s.Valid()
    ensures r.code in {EXIT_OK, EXIT_READ_ERROR, EXIT_WRITE_ERROR, EXIT_HEADER_READ_ERROR}
    ensures r.code == EXIT_HEADER_READ_ERROR ==> r.stdout == out
    ensures o.ReadAt(s.calls) == Clean && !s.eof ==>
              (r.code == EXIT_HEADER_READ_ERROR <==> |s.data| - s.pos < HEADER_SIZE)
    ensures s.eof || |s.data| - s.pos < HEADER_SIZE ==>
              r.code == EXIT_HEADER_READ_ERROR && r.stdout == out
    ensures o.ReadAt(s.calls).Fault? ==>
              r.code == EXIT_READ_ERROR || r.code == EXIT_HEADER_READ_ERROR
    ensures r.code == EXIT_OK ==>
              s.pos + HEADER_SIZE <= |s.data| && r.stdout.bytes == out.bytes + s.data[s.pos + HEADER_SIZE..]
    ensures !s.error && o.ReadsClean() && o.WritesComplete() && s.pos + HEADER_SIZE <= |s.data| && !s.eof
            ==> r.code == EXIT_OK
  {
    var rd := Fread(s, HEADER_SIZE, o);
    if |rd.got| != HEADER_SIZE then Run(EXIT_HEADER_READ_ERROR, rd.stream, out)
    else Redirect(rd.stream, out, o)
  }

  /** `raw2wav`: write the header for the declared length, fail with 5 if
      the write falls short (the copy loop then never runs), then copy
      standard input. The declared length is not compared with the input. */
  function Raw2Wav(filesize: int32, s: Stdin, out: Stdout, o: Oracle): (r: Run)
    requires s.Valid()
    ensures r.code in {EXIT_OK, EXIT_READ_ERROR, EXIT_WRITE_ERROR, EXIT_HEADER_WRITE_ERROR}
    ensures r.code == EXIT_HEADER_WRITE_ERROR ==>
              r.stdin == s && out.bytes <= r.stdout.bytes < out.bytes + Header(filesize)
    ensures r.code == EXIT_OK ==> r.stdout.bytes == out.bytes + Header(filesize) + s.data[s.pos..]
    ensures r.code == EXIT_HEADER_WRITE_ERROR <==>
              o.WriteAt(|out.requests|).Short? && o.WriteAt(|out.requests|).written < HEADER_SIZE
    ensures o.WriteAt(|out.requests|).Short? && o.WriteAt(|out.requests|).written < HEADER_SIZE ==>
              r.stdin == s
              && r.stdout.bytes == out.bytes + Header(filesize)[..o.WriteAt(|out.requests|).written]
    ensures o.WriteAt(|out.requests|) == Complete ==> r.code != EXIT_HEADER_WRITE_ERROR
    ensures !s.error && o.ReadsClean() && o.WritesComplete() ==> r.code == EXIT_OK
  {
    var wr := Fwrite(out, Header(filesize), o);
    if wr.written != HEADER_SIZE then
      ProperPrefixOfAppend(out.bytes, Header(filesize), wr.written);
      Run(EXIT_HEADER_WRITE_ERROR, s, wr.stream)
    else
      Redirect(s, wr.stream, o)
  }

  /** Appending part of `b` gives a proper prefix of appending all of it. */
  lemma ProperPrefixOfAppend(a: seq<byte>, b: seq<byte>, n: nat)
    requires n < |b|
    ensures a <= a + b[..n] < a + b
  {
    assert (a + b)[..|a| + n] == a + b[..n];
  }

  /** The copy loop sees only the unread part of the input: two inputs that
      agree from the read position on, with the same indicators and call
      count, are copied alike. */
  lemma {:induction false} RedirectDependsOnUnread(s: Stdin, t: Stdin, out: Stdout, o: Oracle)
    requires s.Valid() && t.Valid()
    requires s.data[s.pos..] == t.data[t.pos..]
    requires s.eof == t.eof && s.error == t.error && s.calls == t.calls
    ensures Redirect(s, out, o).code == Redirect(t, out, o).code
    ensures Redirect(s, out, o).stdout == Redirect(t, out, o).stdout
    decreases |s.data| - s.pos, if s.eof then 0 else 1
  {
    if !s.eof {
      IterationDependsOnUnread(s, t, out, o);
      var ss, st := Iteration(s, out, o), Iteration(t, out, o);
      if ss.Continue? {
        RedirectDependsOnUnread(ss.stdin, st.stdin, ss.stdout, o);
      }
    }
  }

  /** One pass of the loop on two inputs that agree from the read position
      on ends alike, and leaves them agreeing from the new position on. */
  lemma IterationDependsOnUnread(s: Stdin, t: Stdin, out: Stdout, o: Oracle)
    requires s.Valid() && t.Valid() && !s.eof
    requires s.data[s.pos..] == t.data[t.pos..]
    requires s.eof == t.eof && s.error == t.error && s.calls == t.calls
    ensures var ss, st := Iteration(s, out, o), Iteration(t, out, o);
      && ss.Continue? == st.Continue? && ss.stdout == st.stdout
      && (ss.Stop? ==> ss.code == st.code)
      && ss.stdin.data[ss.stdin.pos..] == st.stdin.data[st.stdin.pos..]
      && ss.stdin.eof == st.stdin.eof && ss.stdin.error == st.stdin.error
      && ss.stdin.calls == st.stdin.calls
  {
    var rs, rt := Fread(s, BUFFER_SIZE, o), Fread(t, BUFFER_SIZE, o);
    assert |s.data| - s.pos == |t.data| - t.pos;
    assert rs.got == rt.got by {
      assert rs.got == s.data[s.pos..][..|rs.got|];
      assert rt.got == t.data[t.pos..][..|rt.got|];
    }
    assert rs.stream.data[rs.stream.pos..] == s.data[s.pos..][|rs.got|..];
    assert rt.stream.data[rt.stream.pos..] == t.data[t.pos..][|rt.got|..];
  }

  /** `wav2raw` never inspects the header: inputs that differ only in their
      first 44 bytes produce the same status and the same output. */
  lemma HeaderNotInspected(h1: seq<byte>, h2: seq<byte>, body: seq<byte>, out: Stdout, o: Oracle)
    requires |h1| == HEADER_SIZE && |h2| == HEADER_SIZE
    ensures Wav2Raw(Open(h1 + body), out, o).code == Wav2Raw(Open(h2 + body), out, o).code
    ensures Wav2Raw(Open(h1 + body), out, o).stdout == Wav2Raw(Open(h2 + body), out, o).stdout
  {
    var r1, r2 := Fread(Open(h1 + body), HEADER_SIZE, o), Fread(Open(h2 + body), HEADER_SIZE, o);
    assert |r1.got| == |r2.got|;
    if |r1.got| == HEADER_SIZE {
      assert r1.stream.data[r1.stream.pos..] == body == r2.stream.data[r2.stream.pos..];
      RedirectDependsOnUnread(r1.stream, r2.stream, out, o);
    }
  }

  /** Round trip: whatever the environment does, if `raw2wav` succeeds on a
      body and `wav2raw` then succeeds on its output, the result is the
      body. The header carries the canonical fields for the declared length. */
  lemma RoundTrip(filesize: int32, body: seq<byte>, o1: Oracle, o2: Oracle)
    requires 0 <= filesize
    requires Raw2Wav(filesize, Open(body), EmptyOutput, o1).code == EXIT_OK
    ensures var wav := Raw2Wav(filesize, Open(body), EmptyOutput, o1).stdout.bytes;
      |wav| == HEADER_SIZE + |body| && Layout(wav[..HEADER_SIZE]) == Canonical(filesize)
      && (Wav2Raw(Open(wav), EmptyOutput, o2).code == EXIT_OK ==>
            Wav2Raw(Open(wav), EmptyOutput, o2).stdout.bytes == body)
  {
    var wav := Raw2Wav(filesize, Open(body), EmptyOutput, o1).stdout.bytes;
    assert wav == Header(filesize) + body;
    assert wav[..HEADER_SIZE] == Header(filesize);
    HeaderLayout(filesize);
    SkipHeader(Header(filesize), body, o2);
  }

  /** `wav2raw` on a header followed by a body, when it succeeds, writes the body. */
  lemma SkipHeader(h: seq<byte>, body: seq<byte>, o: Oracle)
    requires |h| == HEADER_SIZE
    ensures Wav2Raw(Open(h + body), EmptyOutput, o).code == EXIT_OK ==>
              Wav2Raw(Open(h + body), EmptyOutput, o).stdout.bytes == body
  {
    assert (h + body)[HEADER_SIZE..] == body;
  }

  /** Without faults both directions succeed, so the round trip returns the body. */
  lemma RoundTripWithoutFaults(filesize: int32, body: seq<byte>)
    requires 0 <= filesize
    ensures var enc := Raw2Wav(filesize, Open(body), EmptyOutput, NoFaults);
      var dec := Wav2Raw(Open(enc.stdout.bytes), EmptyOutput, NoFaults);
      enc.code == EXIT_OK && dec.code == EXIT_OK && dec.stdout.bytes == body
  {
    assert NoFaults.ReadsClean() && NoFaults.WritesComplete();
    var enc := Raw2Wav(filesize, Open(body), EmptyOutput, NoFaults);
    assert enc.code == EXIT_OK;
    var wav := enc.stdout.bytes;
    assert |wav| == HEADER_SIZE + |body| by {
      assert wav == EmptyOutput.bytes + Header(filesize) + Open(body).data[0..];
    }
    RoundTrip(filesize, body, NoFaults, NoFaults);
  }
}
